# go-ods ReadFrom, modelled in Dafny

go-ods reads an OpenDocument Spreadsheet package. The package is a zip archive. `ReadFrom` buffers the input and opens it as a zip container. It then walks the container's entries in listing order and opens each one. The six entries it knows are `content.xml`, `meta.xml`, `manifest.rdf`, `settings.xml`, `styles.xml` and `mimetype`. Each is folded into one field of an `ODS` record. The loop stops at the first failure. On success it returns the record, a handle over the same archive and a nil error. `Read` opens a file by path and hands over to `ReadFrom`.

The model has two modules:

- `Ods` (`read.dfy`) holds the data model and the name table. `Dispatch` is the switch on one opened entry. `Demux` is the entry loop written as a fold, and `Loaded` is the whole of `ReadFrom`. `ReadFrom` and `Read` are methods. `ReadFrom` walks the entries with a `while` loop and updates a local `ODS` value field by field, as the Go code updates its local struct. It is proved equal to `Loaded`.
- `OdsProperties` (`properties.dfy`) holds the lemmas. They cover how the fold composes and what each early return leaves in the document. They show that unknown names are ignored. `ByField` is an order-independent reference: each field is what the entries of its own name make of it. It is proved to agree with the loop.

The zip index, DEFLATE and XML decoding are abstract:

- An archive is its list of entries.
- Each `Entry` records its name, whether `file.Open()` succeeds, and what reading its stream yields (`None` when reading fails).
- The five XML tree types are type parameters. A `Schema` gives their zero values and an uninterpreted decoder for each.
- A decoder takes the field's previous value as input, because `Decode(&data.Content)` decodes into the existing field. A repeated XML entry therefore decodes on top of the earlier result. A repeated `mimetype` entry simply overwrites the earlier bytes.

Two behaviours of the code are easy to miss:

- A caller might expect every failure to return the zero document. The code returns the partially filled document when an entry fails to open (read.go:51). It returns the zero `ODS{}` only when a decode or read fails (read.go:59, 80). `OpenFailureKeepsPrefix` and `DecodeFailureDiscards` pin down the asymmetry.
- The error messages built with `fmt.Errorf` name the failing stage but do not add the entry's name. The model carries one error tag per stage.

## Model

| member | source | states |
|---|---|---|
| Ods.FieldOf | read.go:56-77 | an entry name selects field `f` exactly when it equals `f`'s name: exact, case-sensitive matching against the six names |
| Ods.Dispatch | read.go:56-84 | an unknown name leaves the document unchanged; a known name changes only its own field; an XML entry succeeds exactly when its decode on top of the field's prior value succeeds, and the field becomes the decoded value; `mimetype` succeeds exactly when its bytes can be read, and stores them verbatim; a failure is a read error for `mimetype` and a decode error otherwise |
| Ods.Demux | read.go:47-85 | the entry loop stops only with an open, decode or read error, and every stop other than an open failure carries the zero document; its full meaning is given by `OdsProperties.DemuxByField`, `OdsProperties.StoppedDocument` and `OdsProperties.DemuxAppend` |
| Ods.Loaded | read.go:31-89 | the handle is non-nil exactly when the error is nil, and then it is the archive that was indexed |
| Ods.ReadFrom | read.go:31-89 | the loop with its early returns produces exactly the outcome of the fold (`Loaded`); handle present exactly when there is no error |
| Ods.Read | read.go:13-28 | a failed open or stat gives the zero document, a nil handle and the matching error; otherwise the result is that of `ReadFrom` |
| OdsProperties.DemuxAppend | read.go:47-85 | scanning two lists of entries one after the other is scanning the first and, unless it stopped, going on from its document |
| OdsProperties.OpenFailureKeepsPrefix | read.go:49-52 | an entry that fails to open stops the read with the document built from the earlier entries, not the zero one |
| OdsProperties.DecodeFailureDiscards | read.go:57-81 | an entry that opens but fails to decode or read stops the read with the zero document, even when earlier entries had filled fields |
| OdsProperties.StoppedDocument | read.go:47-85 | every early stop is one of those two: a decode or read failure carries the zero document; an open failure carries the document of the entries before the one that did not open |
| OdsProperties.IgnoreUnknown | read.go:56-84 | when every unknown-named entry opens, removing all of them does not change the outcome |
| OdsProperties.UnknownEntryStillOpened | read.go:47-56 | an unknown entry that opens is skipped; one that does not open still aborts the read |
| OdsProperties.ByFieldStep | read.go:56-84 | one opened entry: the per-field reference for the whole list is the reference for the rest, started from what `Dispatch` made of the first entry, or nothing when `Dispatch` failed |
| OdsProperties.DemuxByField | read.go:47-85 | the loop runs to the end exactly when every entry opens and each field's own entries decode (or, for `mimetype`, read) in turn; the document is then the per-field result |
| OdsProperties.OverwriteIsLast | read.go:77-83 | overwriting with the `mimetype` bodies succeeds exactly when all can be read, and keeps the last one |
| OdsProperties.ErrorOutcome | read.go:37-81 | on every error the handle is nil; on copy, index, decode and read errors the document is also zero |
| OdsProperties.ReadFromSucceeds | read.go:31-89 | `ReadFrom` succeeds exactly when the copy and the index succeed and the per-field reference gives a document, and then it returns that document and the archive |
| OdsProperties.MimetypeIsLastEntry | read.go:78-83 | on success `Mimetype` is the raw bytes of the last `mimetype` entry, or empty when there is none |
| OdsProperties.AbsentEntryKeepsZero | read.go:33-88 | on success a known entry missing from the archive leaves its field at the zero value |
| OdsProperties.NoKnownEntries | read.go:47-88 | an archive whose entries all open and have no known name yields the zero document, the archive handle and no error |

## Left out

- `Read`'s `os.Open`, `Stat` and deferred file close (read.go:13-28) are filesystem I/O. Their outcomes are boolean parameters.
- `io.Copy` into the buffer (read.go:36) is a success flag. `zip.NewReader` with `size` (read.go:41) is an optional archive, where `None` means the index failed. The zip index, DEFLATE and the buffer are not modelled.
- XML decoding and the schemas of `Content`, `Meta`, `Manifest`, `Settings` and `Styles` are type parameters with uninterpreted decoders. `DecodeXml` treats a stream that cannot be read as a decode failure. A decoder that finishes before a late read error is not distinguished.
- Error message strings from `fmt.Errorf` are replaced by one `ReadError` tag per stage.
- The `defer rc.Close()` inside the loop (read.go:53) releases every opened entry reader only when `ReadFrom` returns, not per entry. Resource lifetime is not modelled.
- The `zip.ReadCloser` built at read.go:88 is modelled as the archive value itself. Pointer identity is not modelled.
- Calling `Read` twice on the same input gives the same result. This holds by construction because every operation is a deterministic function of its inputs, so there is no separate lemma.
