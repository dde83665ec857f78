/**
  Properties of the PdfInfo accessors: the Info-first precedence of title and
  author, and which parts of the result object each accessor depends on.
*/
module PdfParserAccessors {
  import opened Wrappers
  import opened PdfParser

  /** pdf with its RDF record replaced by rdf; every other field is kept. */
  function WithRdf(pdf: PdfInfo, rdf: Option<MetaDataRdf>): (p: PdfInfo)
    ensures p.metadata.rdfMeta == rdf
    ensures p.pdfVersion == pdf.pdfVersion && p.originalXrefOffset == pdf.originalXrefOffset
    ensures p.originalTrailerSection == pdf.originalTrailerSection
    ensures p.additionalTrailerSection == pdf.additionalTrailerSection && p.xrefTable == pdf.xrefTable
    ensures p.root == pdf.root && p.info == pdf.info && p.pagesCount == pdf.pagesCount
    ensures p.metadata.typeName == pdf.metadata.typeName && p.metadata.subtype == pdf.metadata.subtype
    ensures p.metadata.length == pdf.metadata.length && p.metadata.dl == pdf.metadata.dl
    ensures p.metadata.rawStreamData == pdf.metadata.rawStreamData
  {
    pdf.(metadata := pdf.metadata.(rdfMeta := rdf))
  }

  /** A non-empty Info title wins over any RDF title, present, absent or different. */
  lemma TitleInfoWins(pdf: PdfInfo, rdf: Option<MetaDataRdf>)
    requires pdf.info.title != ""
    ensures GetTitle(WithRdf(pdf, rdf)) == GetTitle(pdf) == pdf.info.title
  {
  }

  /** With an empty Info title the RDF title is returned, whatever else the Info dictionary holds. */
  lemma TitleFallback(pdf: PdfInfo, rdf: MetaDataRdf)
    requires pdf.info.title == ""
    ensures GetTitle(WithRdf(pdf, Some(rdf))) == rdf.title
  {
  }

  /** A non-empty Info author wins over any RDF creator. */
  lemma AuthorInfoWins(pdf: PdfInfo, rdf: Option<MetaDataRdf>)
    requires pdf.info.author != ""
    ensures GetAuthor(WithRdf(pdf, rdf)) == GetAuthor(pdf) == pdf.info.author
  {
  }

  /** With an empty Info author the RDF creator is returned. */
  lemma AuthorFallback(pdf: PdfInfo, rdf: MetaDataRdf)
    requires pdf.info.author == ""
    ensures GetAuthor(WithRdf(pdf, Some(rdf))) == rdf.creator
  {
  }

  /** The creator never consults the RDF record, present or not. */
  lemma CreatorIgnoresRdf(pdf: PdfInfo, rdf: Option<MetaDataRdf>)
    ensures GetCreator(WithRdf(pdf, rdf)) == GetCreator(pdf) == pdf.info.creator
  {
  }

  /**
    ISBN, publishers, languages and description are the RDF record's own
    values: two results with the same RDF record agree on them, whatever
    their Info dictionaries hold, and sequences come back unchanged.
  */
  lemma RdfAccessorsIgnoreInfo(p: PdfInfo, q: PdfInfo)
    requires p.metadata.rdfMeta.Some? && p.metadata.rdfMeta == q.metadata.rdfMeta
    ensures GetISBN(p) == GetISBN(q) == p.metadata.rdfMeta.value.isbn
    ensures GetDescription(p) == GetDescription(q) == p.metadata.rdfMeta.value.description
    ensures GetPublisher(p) == GetPublisher(q) == p.metadata.rdfMeta.value.publishers
    ensures GetLanguages(p) == GetLanguages(q) == p.metadata.rdfMeta.value.languages
  {
  }

  /**
    No accessor reads the version, offsets, trailers, xref tables, catalog,
    page count or raw stream: results that agree on the Info dictionary and
    the RDF record agree on every accessor.
  */
  lemma AccessorsDependOnlyOnInfoAndRdf(p: PdfInfo, q: PdfInfo)
    requires p.info == q.info && p.metadata.rdfMeta == q.metadata.rdfMeta
    ensures (p.info.title != "" || p.metadata.rdfMeta.Some?) ==> GetTitle(p) == GetTitle(q)
    ensures (p.info.author != "" || p.metadata.rdfMeta.Some?) ==> GetAuthor(p) == GetAuthor(q)
    ensures GetCreator(p) == GetCreator(q)
  {
  }

  /** When both sources carry the same non-empty title and author, the accessors return it. */
  lemma SourcesAgree(pdf: PdfInfo)
    requires pdf.metadata.rdfMeta.Some?
    requires pdf.info.title == pdf.metadata.rdfMeta.value.title
    requires pdf.info.author == pdf.metadata.rdfMeta.value.creator
    ensures GetTitle(pdf) == pdf.info.title == pdf.metadata.rdfMeta.value.title
    ensures GetAuthor(pdf) == pdf.info.author == pdf.metadata.rdfMeta.value.creator
  {
  }
}
