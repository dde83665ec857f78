/**
  The result model of the PDF metadata extractor (package pdf_parser, types.go):
  the sentinel error kinds, the records the decoders fill in, and the derived
  accessors of PdfInfo with their Info-first, RDF-fallback precedence.
*/
module PdfParser {
  import opened Wrappers

  /** Go's int64, and Go's int on the 64-bit targets the parser is built for. */
  type Int64 = x: int | -0x8000_0000_0000_0000 <= x <= 0x7FFF_FFFF_FFFF_FFFF

  /** Go's byte (uint8). */
  type Byte = x: int | 0 <= x < 0x100

  // ---------------------------------------------------------------------------
  // Error kinds
  // ---------------------------------------------------------------------------

  /** The nine sentinel errors, one per errors.New call. */
  datatype ParseError =
    | FileIsNotPdf
    | CannotReadXrefOffset
    | CannotParseXrefOffset
    | CannotParseXrefSection
    | CannotFindObjectById
    | CannotParseTrailer
    | CannotParseObject
    | UnsupportedParseContent
    | CannotFindStreamContent

  /**
    The text each sentinel carries (what its Error() method reports). Reading
    it back recovers the kind, so the nine texts are non-empty and pairwise
    distinct.
  */
  function Message(e: ParseError): (m: string)
    ensures |m| > 0
    ensures KindOfMessage(m) == Some(e)
  {
    match e
    case FileIsNotPdf => "file is not pdf"
    case CannotReadXrefOffset => "cannot read OriginalXrefOffset"
    case CannotParseXrefOffset => "cannot parse OriginalXrefOffset"
    case CannotParseXrefSection => "cannot parse XrefSection"
    case CannotFindObjectById => "cannot find object in Xref table"
    case CannotParseTrailer => "cannot parse trailer section"
    case CannotParseObject => "cannot parse xref Object"
    case UnsupportedParseContent => "unsupported stream decode content"
    case CannotFindStreamContent => "cannot find stream content"
  }

  /** Recovers the error kind from a reported message; None for any other text. */
  function KindOfMessage(m: string): (k: Option<ParseError>)
    ensures m == "" ==> k == None
  {
    if m == "file is not pdf" then Some(FileIsNotPdf)
    else if m == "cannot read OriginalXrefOffset" then Some(CannotReadXrefOffset)
    else if m == "cannot parse OriginalXrefOffset" then Some(CannotParseXrefOffset)
    else if m == "cannot parse XrefSection" then Some(CannotParseXrefSection)
    else if m == "cannot find object in Xref table" then Some(CannotFindObjectById)
    else if m == "cannot parse trailer section" then Some(CannotParseTrailer)
    else if m == "cannot parse xref Object" then Some(CannotParseObject)
    else if m == "unsupported stream decode content" then Some(UnsupportedParseContent)
    else if m == "cannot find stream content" then Some(CannotFindStreamContent)
    else None
  }

  // ---------------------------------------------------------------------------
  // Records
  // ---------------------------------------------------------------------------

  /** A reference to an indirect object: number, generation and the raw marker ("R"). */
  datatype ObjectIdentifier = ObjectIdentifier(objectNumber: Int64, generationNumber: Int64, keyWord: string)

  /** One trailer dictionary; prev is 0 at the root of the incremental-update chain. */
  datatype TrailerSection = TrailerSection(
    idRaw: string,
    info: ObjectIdentifier,
    root: ObjectIdentifier,
    size: string,
    prev: Int64)

  /**
    One row of an xref subsection. id is the object number; objectNumber and
    generationNumber hold the row's byte offset and generation; keyWord is
    "n" (in use) or "f" (free).
  */
  datatype ObjectSubsectionElement = ObjectSubsectionElement(
    id: Int64,
    objectNumber: Int64,
    generationNumber: Int64,
    keyWord: string)

  /** The rows declared by one subsection header, keyed by object number. */
  datatype ObjectSubsection = ObjectSubsection(
    id: Int64,
    objectsCount: Int64,
    firstSubsectionObjectId: Int64,
    lastSubsectionObjectId: Int64,
    elements: map<Int64, ObjectSubsectionElement>)

  /** One decoded xref section: its subsections keyed by first object id, and all rows flattened. */
  datatype XrefTable = XrefTable(
    objects: map<Int64, ObjectSubsectionElement>,
    objectSubsections: map<Int64, ObjectSubsection>,
    sectionStart: Int64)

  /** The document information dictionary; an absent entry is the empty string. */
  datatype InfoObject = InfoObject(
    title: string,
    author: string,
    creator: string,
    creationDate: string,
    producer: string,
    modDate: string)

  /** The document catalog; the three references are nil when the key is absent. */
  datatype RootObject = RootObject(
    typeName: string,
    pages: Option<ObjectIdentifier>,
    metadata: Option<ObjectIdentifier>,
    pageLabels: Option<ObjectIdentifier>,
    lang: string)

  /** The metadata stream: its dictionary, raw body and the decoded XMP/RDF record (nullable). */
  datatype Metadata = Metadata(
    typeName: string,
    subtype: string,
    length: Int64,
    dl: Int64,
    rawStreamData: seq<Byte>,
    rdfMeta: Option<MetaDataRdf>)

  /** Dublin Core fields of the XMP packet; publishers and languages keep document order. */
  datatype MetaDataRdf = MetaDataRdf(
    title: string,
    description: string,
    creator: string,
    date: string,
    isbn: string,
    publishers: seq<string>,
    languages: seq<string>)

  /** The aggregate result of one parse. */
  datatype PdfInfo = PdfInfo(
    pdfVersion: string,
    originalXrefOffset: Int64,
    originalTrailerSection: TrailerSection,
    additionalTrailerSection: seq<TrailerSection>,
    xrefTable: seq<XrefTable>,
    root: RootObject,
    info: InfoObject,
    metadata: Metadata,
    pagesCount: Int64)

  // ---------------------------------------------------------------------------
  // Accessors
  // ---------------------------------------------------------------------------

  /**
    The title: the Info dictionary's when it is non-empty, else the RDF title.
    The fallback dereferences the RDF record without a nil check, so that
    record must be present whenever the Info title is empty.
  */
  function GetTitle(pdf: PdfInfo): (title: string)
    requires pdf.info.title != "" || pdf.metadata.rdfMeta.Some?
    ensures pdf.info.title != "" ==> title == pdf.info.title
    ensures pdf.info.title == "" ==> title == pdf.metadata.rdfMeta.value.title
    ensures pdf.metadata.rdfMeta.Some? ==>
      (title == pdf.info.title || title == pdf.metadata.rdfMeta.value.title)
    ensures pdf.metadata.rdfMeta.Some? ==>
      (title == "" <==> pdf.info.title == "" && pdf.metadata.rdfMeta.value.title == "")
  {
    if pdf.info.title != "" then pdf.info.title
    else pdf.metadata.rdfMeta.value.title
  }

  /**
    The author: the Info dictionary's when it is non-empty, else the RDF
    creator, under the same presence requirement as GetTitle.
  */
  function GetAuthor(pdf: PdfInfo): (author: string)
    requires pdf.info.author != "" || pdf.metadata.rdfMeta.Some?
    ensures pdf.info.author != "" ==> author == pdf.info.author
    ensures pdf.info.author == "" ==> author == pdf.metadata.rdfMeta.value.creator
    ensures pdf.metadata.rdfMeta.Some? ==>
      (author == pdf.info.author || author == pdf.metadata.rdfMeta.value.creator)
    ensures pdf.metadata.rdfMeta.Some? ==>
      (author == "" <==> pdf.info.author == "" && pdf.metadata.rdfMeta.value.creator == "")
  {
    if pdf.info.author != "" then pdf.info.author
    else pdf.metadata.rdfMeta.value.creator
  }

  /** The creator: only the Info dictionary is consulted; its empty case yields "". */
  function GetCreator(pdf: PdfInfo): (creator: string)
    ensures creator == pdf.info.creator
  {
    if pdf.info.creator != "" then pdf.info.creator else ""
  }

  /** The ISBN, read from the RDF record, which the code dereferences unguarded. */
  function GetISBN(pdf: PdfInfo): (isbn: string)
    requires pdf.metadata.rdfMeta.Some?
    ensures isbn == pdf.metadata.rdfMeta.value.isbn
  {
    pdf.metadata.rdfMeta.value.isbn
  }

  /** The RDF publishers, as decoded. */
  function GetPublisher(pdf: PdfInfo): (publishers: seq<string>)
    requires pdf.metadata.rdfMeta.Some?
    ensures publishers == pdf.metadata.rdfMeta.value.publishers
  {
    pdf.metadata.rdfMeta.value.publishers
  }

  /** The RDF languages, as decoded. */
  function GetLanguages(pdf: PdfInfo): (languages: seq<string>)
    requires pdf.metadata.rdfMeta.Some?
    ensures languages == pdf.metadata.rdfMeta.value.languages
  {
    pdf.metadata.rdfMeta.value.languages
  }

  /** The RDF description. */
  function GetDescription(pdf: PdfInfo): (description: string)
    requires pdf.metadata.rdfMeta.Some?
    ensures description == pdf.metadata.rdfMeta.value.description
  {
    pdf.metadata.rdfMeta.value.description
  }
}
