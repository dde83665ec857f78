# pdf_parser result model in Dafny

This project models the result model of the pdf_parser package, a Go library
that reads structural and bibliographic metadata out of PDF files. The model
covers `types.go`:

- the nine sentinel error kinds;
- the records the decoders fill in: `PdfInfo`, `TrailerSection`,
  `ObjectIdentifier`, the xref rows, subsections and tables, `InfoObject`,
  `RootObject`, `Metadata` and the XMP/RDF record `MetaDataRdf`;
- the derived accessors of `PdfInfo`.

`getTitle` and `getAuthor` apply an Info-first, RDF-fallback precedence.
`getCreator` reads only the Info dictionary. `getISBN`, `getPublisher`,
`getLanguages` and `getDescription` project fields of the RDF record.

Files:

- `wrappers.dfy`: `Option`, which stands in for Go's nullable pointers.
- `types.dfy` (module `PdfParser`): the error kinds and their messages, every record type, and the accessors.
- `errors.dfy` (module `PdfParserErrors`): each error kind is identified by its message.
- `accessors.dfy` (module `PdfParserAccessors`): the precedence rule, and which fields each accessor depends on.
- `xref.dfy` (module `XrefLayout`): the shape of xref subsections and tables that their fields describe, and what follows from it.

Representation choices:

- Go `int` and `int64` become the subset type `Int64`. Go `int` is taken to be 64 bits wide.
- `[]byte` becomes `seq<Byte>`.
- The nullable pointers `RootObject.Pages`, `Metadata`, `PageLabels` and `Metadata.RdfMeta` become `Option`.
- `map[int]*T` becomes `map<Int64, T>`.
- `[]*T` becomes `seq<T>`.
- A nil slice is the empty sequence; Go gives both length 0.

The accessors are Dafny functions over values. They therefore cannot change
the `PdfInfo` they read. This matches the Go code: `getTitle` and `getAuthor`
are methods on a `*PdfInfo` receiver, and the other five take a `*PdfInfo`
parameter, and all seven only read through that pointer.

`getTitle` and `getAuthor` dereference `RdfMeta` without a nil check when
the Info field is empty. The other four accessors always dereference it.
Each accessor therefore requires the RDF record to be present exactly where
the Go code would dereference it.

Only `getTitle` and `getAuthor` fall back to the RDF record. `getCreator`
has no RDF fallback even though `MetaDataRdf` has a `Creator` field: on an
empty Info creator it returns `""`. The RDF creator is used only as the
author fallback. All seven accessors are unexported.

## Model

| member | source | states |
|---|---|---|
| PdfParser.Message | types.go:8-18 | every sentinel error carries a non-empty message, and reading that message back yields the same kind, so the nine messages are pairwise distinct; the texts in its body are those of the nine `errors.New` calls |
| PdfParser.KindOfMessage | types.go:8-18 | the empty text names no error kind |
| PdfParserErrors.MessageRoundTrip | types.go:8-18 | reading back an error kind's message yields that kind |
| PdfParserErrors.KindOfMessageSound | types.go:8-18 | a text that is recognised as an error kind is exactly that kind's message |
| PdfParserErrors.MessagesDistinct | types.go:8-18 | the nine kinds are pairwise distinct, and their messages are too |
| PdfParser.GetTitle | types.go:32-37 | a non-empty Info title is the result; otherwise the result is the RDF title; the result is empty iff both sources are; the RDF record must be present when the Info title is empty |
| PdfParser.GetAuthor | types.go:39-44 | a non-empty Info author is the result; otherwise the result is the RDF creator; the result is empty iff both are; the RDF record must be present when the Info author is empty |
| PdfParser.GetCreator | types.go:46-51 | the result always equals the Info creator, the empty case included |
| PdfParser.GetISBN | types.go:53-55 | the result is the RDF record's ISBN; the record must be present, since it is dereferenced unguarded; `RdfAccessorsIgnoreInfo` shows the Info dictionary is not read |
| PdfParser.GetPublisher | types.go:57-59 | the result is the RDF publishers sequence unchanged (same length, order and elements); the record must be present; `RdfAccessorsIgnoreInfo` shows the Info dictionary is not read |
| PdfParser.GetLanguages | types.go:61-63 | the result is the RDF languages sequence unchanged; the record must be present; `RdfAccessorsIgnoreInfo` shows the Info dictionary is not read |
| PdfParser.GetDescription | types.go:65-67 | the result is the RDF record's description; the record must be present; `RdfAccessorsIgnoreInfo` shows the Info dictionary is not read |
| PdfParserAccessors.TitleInfoWins | types.go:32-35 | with a non-empty Info title, replacing the RDF record by any other record, or by nil, leaves the title unchanged |
| PdfParserAccessors.TitleFallback | types.go:36 | with an empty Info title, the title is the RDF title of whatever record is present |
| PdfParserAccessors.AuthorInfoWins | types.go:39-42 | with a non-empty Info author, replacing the RDF record leaves the author unchanged |
| PdfParserAccessors.AuthorFallback | types.go:43 | with an empty Info author, the author is the RDF creator |
| PdfParserAccessors.CreatorIgnoresRdf | types.go:46-51 | the creator is the same whatever RDF record is present, including none |
| PdfParserAccessors.RdfAccessorsIgnoreInfo | types.go:53-67 | ISBN, description, publishers and languages equal the RDF record's fields, sequences unchanged; results with the same RDF record agree on all four, whatever their Info dictionaries |
| PdfParserAccessors.AccessorsDependOnlyOnInfoAndRdf | types.go:32-51 | title, author and creator depend only on the Info dictionary and the RDF record, not on trailers, xref tables, catalog or stream data |
| PdfParserAccessors.SourcesAgree | types.go:32-44 | when Info and RDF carry the same title and author, the accessors return that value |
| XrefLayout.ObjectRange | types.go:93-99 | the set holds exactly the object numbers from the first id through first id + count - 1 |
| XrefLayout.ObjectRangeSize | types.go:93-99 | a run of count consecutive object numbers has count members |
| XrefLayout.SubsectionSize | types.go:93-99 | a subsection consistent with its header, with last id = first id + count - 1 and one row per number of its run, holds exactly `ObjectsCount` rows |
| XrefLayout.SubsectionCovers | types.go:93-99 | a consistent subsection has a row for an object number iff that number lies between its first and last ids |
| XrefLayout.CoveringSubsectionRow | types.go:101-105 | in a consistent table, a subsection whose header range covers an object number supplies that number's flattened row |
| XrefLayout.RowHasCoveringSubsection | types.go:101-105 | in a consistent table, every flattened row lies in the header range of some subsection and is that subsection's row |

## Left out

- `BufferSize` and `BufferSize300` (types.go:5-6) are read-buffer sizes for file I/O and carry no logic.
- The decoders live in other files of the package and are not modelled. This covers startxref scanning, trailer and xref section decoding, the `Prev` chain walk, object resolution, dictionary decoding, XMP extraction and page counting.
- `parseBagElements` and `ParsePdf`, exercised by parser_test.go, are not part of this model. The first uses Go `regexp` over raw bytes; the second opens a file on disk.
- The consistency of subsections and tables (`XrefLayout.ValidSubsection`, `XrefLayout.ValidXrefTable`) is the shape the field names describe: a subsection's header gives its first id and count, and `Objects` holds the rows of every subsection. The Go types do not enforce it, so it is stated as a predicate that the lemmas using it require.
- types.go has no page-count accessor. `PagesCount` is modelled only as a field.
- The model does not capture aliasing between the pointers in `[]*TrailerSection`, `[]*XrefTable` and the element maps. types.go never shares or mutates them.
- The model does not capture nil entries in those slices and maps. types.go never produces them.
- A nil `RdfMeta` dereference panics in Go. The model does not represent the panic; the accessors' preconditions exclude it instead.
- Every accessor also dereferences its `*PdfInfo` without a nil check and panics on a nil pointer. The model takes a `PdfInfo` value, which cannot be nil, so it does not capture this panic.
- Go strings are byte strings. Info fields read from a PDF may hold PDFDocEncoding or UTF-16BE bytes. The model uses Dafny `string` and compares only against `""`, so it does not capture encodings. The accessors never decode or transcode their fields.
- The logger sink, file I/O and concurrency between parses are not modelled. types.go has none of them.
