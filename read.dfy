/** A model of ReadFrom and Read in read.go of go-ods: an OpenDocument
    Spreadsheet package is a zip archive; ReadFrom walks its entries in
    listing order, opens each one, and folds the six entries it knows
    (`content.xml`, `meta.xml`, `manifest.rdf`, `settings.xml`, `styles.xml`
    and `mimetype`) into the fields of one ODS record, stopping at the first
    failure.

    The zip index, DEFLATE and the XML decoder are library code and stay
    abstract: an archive is the list of its entries as the zip reader lists
    them, each entry says whether it opens and what its stream yields, and
    the five XML decoders are uninterpreted functions that decode ON TOP OF
    the field's previous value, as `Decode(&data.Content)` does. */
module Ods {

  datatype Option<+T> = None | Some(value: T)

  datatype Result<+T, +E> = Success(value: T) | Failure(error: E)

  newtype Byte = b: int | 0 <= b < 256

  type Bytes = seq<Byte>

  // ---------------------------------------------------------------------
  // Data model
  // ---------------------------------------------------------------------

  /** The ODS record. The five parsed trees have schemas outside this model,
      so their types are parameters; Mimetype is the raw entry contents. */
  datatype ODS<C, M, R, S, Y> = ODS(
    content: C,
    meta: M,
    manifest: R,
    settings: S,
    styles: Y,
    mimetype: Bytes)

  /** One XML decoder: given the value already in the field and the entry's
      bytes, the decoded value, or None when decoding fails. */
  type Decoder<!T> = (T, Bytes) -> Option<T>

  /** What the model needs to know about the five tree types: the zero value
      of each (the field of `ODS{}`) and the decoder that fills it. */
  datatype Schema<!C, !M, !R, !S, !Y> = Schema(
    zeroContent: C, decodeContent: Decoder<C>,
    zeroMeta: M, decodeMeta: Decoder<M>,
    zeroManifest: R, decodeManifest: Decoder<R>,
    zeroSettings: S, decodeSettings: Decoder<S>,
    zeroStyles: Y, decodeStyles: Decoder<Y>)
  {
    /** `ODS{}`: every field at its zero value, Mimetype empty. */
    function Zero(): ODS<C, M, R, S, Y> {
      ODS(zeroContent, zeroMeta, zeroManifest, zeroSettings, zeroStyles, [])
    }
  }

  /** One entry of the zip listing as ReadFrom observes it: its name, whether
      `file.Open()` succeeds, and what reading the opened stream to its end
      yields (None when the stream fails part-way). */
  datatype Entry = Entry(name: string, opens: bool, body: Option<Bytes>)

  /** The opened zip container: its entries in listing order. The handle
      ReadFrom returns on success wraps this same reader. */
  datatype Archive = Archive(files: seq<Entry>)

  /** One tag per failing stage; the messages themselves are not modelled. */
  datatype ReadError =
    | OpenFileFailed   // os.Open in Read
    | StatFailed       // Stat in Read
    | CopyFailed       // io.Copy into the buffer
    | IndexFailed      // zip.NewReader
    | OpenEntryFailed  // file.Open of one entry
    | DecodeFailed     // XML decoding of one known entry
    | ReadEntryFailed  // io.ReadAll of the mimetype entry

  /** The three results of ReadFrom: the document, the archive handle (None
      is a nil pointer) and the error (None is nil). */
  datatype Outcome<C, M, R, S, Y> =
    Outcome(doc: ODS<C, M, R, S, Y>, handle: Option<Archive>, err: Option<ReadError>)

  // ---------------------------------------------------------------------
  // The name table
  // ---------------------------------------------------------------------

  const ContentName: string := "content.xml"
  const MetaName: string := "meta.xml"
  const ManifestName: string := "manifest.rdf"
  const SettingsName: string := "settings.xml"
  const StylesName: string := "styles.xml"
  const MimetypeName: string := "mimetype"

  /** The fields of ODS that an entry can be folded into. */
  datatype Field = Content | Meta | Manifest | Settings | Styles | Mimetype

  /** The entry name that feeds each field. */
  function NameOf(f: Field): string {
    match f
    case Content => ContentName
    case Meta => MetaName
    case Manifest => ManifestName
    case Settings => SettingsName
    case Styles => StylesName
    case Mimetype => MimetypeName
  }

  /** The switch on `file.Name`: which field an entry name selects, if any.
      Matching is exact string equality, so no other spelling selects a field. */
  function FieldOf(name: string): (r: Option<Field>)
    ensures forall f: Field :: r == Some(f) <==> name == NameOf(f)
  {
    if name == ContentName then Some(Content)
    else if name == MetaName then Some(Meta)
    else if name == ManifestName then Some(Manifest)
    else if name == SettingsName then Some(Settings)
    else if name == StylesName then Some(Styles)
    else if name == MimetypeName then Some(Mimetype)
    else None
  }

  /** Every field of `after` other than `f` (all of them when `f` is None)
      equals the same field of `before`. */
  ghost predicate Untouched<C, M, R, S, Y>(before: ODS<C, M, R, S, Y>, after: ODS<C, M, R, S, Y>, f: Option<Field>) {
    (f != Some(Content) ==> after.content == before.content) &&
    (f != Some(Meta) ==> after.meta == before.meta) &&
    (f != Some(Manifest) ==> after.manifest == before.manifest) &&
    (f != Some(Settings) ==> after.settings == before.settings) &&
    (f != Some(Styles) ==> after.styles == before.styles) &&
    (f != Some(Mimetype) ==> after.mimetype == before.mimetype)
  }

  // ---------------------------------------------------------------------
  // One entry, and the loop as a fold
  // ---------------------------------------------------------------------

  /** `xml.NewDecoder(rc).Decode(&field)`: decodes the stream on top of the
      field's prior value; a stream that fails to read fails the decode. */
  function DecodeXml<T>(decode: Decoder<T>, prior: T, body: Option<Bytes>): Option<T> {
    if body.None? then None else decode(prior, body.value)
  }

  /** The body of the switch for an entry that has been opened: the new
      document, or the error ReadFrom reports for this entry. */
  function Dispatch<C, M, R, S, Y>(s: Schema<C, M, R, S, Y>, data: ODS<C, M, R, S, Y>, e: Entry)
    : (r: Result<ODS<C, M, R, S, Y>, ReadError>)
    ensures FieldOf(e.name).None? ==> r == Success(data)
    ensures r.Success? ==> Untouched(data, r.value, FieldOf(e.name))
    ensures r.Success? && e.name == MimetypeName ==> Some(r.value.mimetype) == e.body
    ensures r.Failure? ==> r.error == if e.name == MimetypeName then ReadEntryFailed else DecodeFailed
    ensures e.name == MimetypeName ==> (r.Success? <==> e.body.Some?)
    ensures e.name == ContentName ==>
      (r.Success? <==> DecodeXml(s.decodeContent, data.content, e.body).Some?) &&
      (r.Success? ==> Some(r.value.content) == DecodeXml(s.decodeContent, data.content, e.body))
    ensures e.name == MetaName ==>
      (r.Success? <==> DecodeXml(s.decodeMeta, data.meta, e.body).Some?) &&
      (r.Success? ==> Some(r.value.meta) == DecodeXml(s.decodeMeta, data.meta, e.body))
    ensures e.name == ManifestName ==>
      (r.Success? <==> DecodeXml(s.decodeManifest, data.manifest, e.body).Some?) &&
      (r.Success? ==> Some(r.value.manifest) == DecodeXml(s.decodeManifest, data.manifest, e.body))
    ensures e.name == SettingsName ==>
      (r.Success? <==> DecodeXml(s.decodeSettings, data.settings, e.body).Some?) &&
      (r.Success? ==> Some(r.value.settings) == DecodeXml(s.decodeSettings, data.settings, e.body))
    ensures e.name == StylesName ==>
      (r.Success? <==> DecodeXml(s.decodeStyles, data.styles, e.body).Some?) &&
      (r.Success? ==> Some(r.value.styles) == DecodeXml(s.decodeStyles, data.styles, e.body))
  {
    match FieldOf(e.name)
    case None => Success(data)
    case Some(Content) =>
      (match DecodeXml(s.decodeContent, data.content, e.body)
       case None => Failure(DecodeFailed)
       case Some(v) => Success(data.(content := v)))
    case Some(Meta) =>
      (match DecodeXml(s.decodeMeta, data.meta, e.body)
       case None => Failure(DecodeFailed)
       case Some(v) => Success(data.(meta := v)))
    case Some(Manifest) =>
      (match DecodeXml(s.decodeManifest, data.manifest, e.body)
       case None => Failure(DecodeFailed)
       case Some(v) => Success(data.(manifest := v)))
    case Some(Settings) =>
      (match DecodeXml(s.decodeSettings, data.settings, e.body)
       case None => Failure(DecodeFailed)
       case Some(v) => Success(data.(settings := v)))
    case Some(Styles) =>
      (match DecodeXml(s.decodeStyles, data.styles, e.body)
       case None => Failure(DecodeFailed)
       case Some(v) => Success(data.(styles := v)))
    case Some(Mimetype) =>
      (match e.body
       case None => Failure(ReadEntryFailed)
       case Some(b) => Success(data.(mimetype := b)))
  }

  /** Where the entry loop ends: it ran to the end with the document `data`,
      or it returned early with the document `doc` and an error. */
  datatype Scan<C, M, R, S, Y> =
    | Scanned(data: ODS<C, M, R, S, Y>)
    | Stopped(doc: ODS<C, M, R, S, Y>, err: ReadError)

  /** The entry loop of ReadFrom, started from `data`. An entry that does not
      open stops the loop with the document filled so far; a failing decode
      or read stops it with the zero document. */
  function Demux<C, M, R, S, Y>(s: Schema<C, M, R, S, Y>, data: ODS<C, M, R, S, Y>, files: seq<Entry>)
    : (r: Scan<C, M, R, S, Y>)
    ensures r.Stopped? ==> r.err == OpenEntryFailed || r.err == DecodeFailed || r.err == ReadEntryFailed
    ensures r.Stopped? && r.err != OpenEntryFailed ==> r.doc == s.Zero()
    decreases |files|
  {
    if files == [] then Scanned(data)
    else if !files[0].opens then Stopped(data, OpenEntryFailed)
    else
      match Dispatch(s, data, files[0])
      case Failure(err) => Stopped(s.Zero(), err)
      case Success(next) => Demux(s, next, files[1..])
  }

  /** The whole of ReadFrom given the outcome of the copy and of building
      the zip index (None when zip.NewReader fails). */
  function Loaded<C, M, R, S, Y>(s: Schema<C, M, R, S, Y>, copied: bool, index: Option<Archive>)
    : (r: Outcome<C, M, R, S, Y>)
    ensures r.handle.Some? <==> r.err.None?
    ensures r.handle.Some? ==> r.handle == index
  {
    if !copied then Outcome(s.Zero(), None, Some(CopyFailed))
    else if index.None? then Outcome(s.Zero(), None, Some(IndexFailed))
    else
      match Demux(s, s.Zero(), index.value.files)
      case Scanned(data) => Outcome(data, index, None)
      case Stopped(doc, err) => Outcome(doc, None, Some(err))
  }

  // ---------------------------------------------------------------------
  // The imperative code
  // ---------------------------------------------------------------------

  /** ReadFrom: the copy and the zip index are given as outcomes; the loop
      updates the local record field by field and returns at the first
      failure, like the source. */
  method ReadFrom<C, M, R, S, Y>(s: Schema<C, M, R, S, Y>, copied: bool, index: Option<Archive>)
    returns (doc: ODS<C, M, R, S, Y>, handle: Option<Archive>, err: Option<ReadError>)
    ensures Outcome(doc, handle, err) == Loaded(s, copied, index)
    ensures handle.Some? <==> err.None?
  {
    var data := s.Zero();
    if !copied {
      return data, None, Some(CopyFailed);
    }
    if index.None? {
      return data, None, Some(IndexFailed);
    }
    var files := index.value.files;
    var i := 0;
    while i < |files|
      invariant 0 <= i <= |files|
      invariant Demux(s, data, files[i..]) == Demux(s, s.Zero(), files)
    {
      var file := files[i];
      if !file.opens {
        return data, None, Some(OpenEntryFailed);
      }
      if file.name == ContentName {
        var decoded := DecodeXml(s.decodeContent, data.content, file.body);
        if decoded.None? {
          return s.Zero(), None, Some(DecodeFailed);
        }
        data := data.(content := decoded.value);
      } else if file.name == MetaName {
        var decoded := DecodeXml(s.decodeMeta, data.meta, file.body);
        if decoded.None? {
          return s.Zero(), None, Some(DecodeFailed);
        }
        data := data.(meta := decoded.value);
      } else if file.name == ManifestName {
        var decoded := DecodeXml(s.decodeManifest, data.manifest, file.body);
        if decoded.None? {
          return s.Zero(), None, Some(DecodeFailed);
        }
        data := data.(manifest := decoded.value);
      } else if file.name == SettingsName {
        var decoded := DecodeXml(s.decodeSettings, data.settings, file.body);
        if decoded.None? {
          return s.Zero(), None, Some(DecodeFailed);
        }
        data := data.(settings := decoded.value);
      } else if file.name == StylesName {
        var decoded := DecodeXml(s.decodeStyles, data.styles, file.body);
        if decoded.None? {
          return s.Zero(), None, Some(DecodeFailed);
        }
        data := data.(styles := decoded.value);
      } else if file.name == MimetypeName {
        if file.body.None? {
          return s.Zero(), None, Some(ReadEntryFailed);
        }
        data := data.(mimetype := file.body.value);
      }
      i := i + 1;
    }
    return data, index, None;
  }

  /** Read: opening and stat-ing the file are given as outcomes; on success
      it hands over to ReadFrom. */
  method Read<C, M, R, S, Y>(s: Schema<C, M, R, S, Y>, fileOpened: bool, statOk: bool, copied: bool, index: Option<Archive>)
    returns (doc: ODS<C, M, R, S, Y>, handle: Option<Archive>, err: Option<ReadError>)
    ensures !fileOpened ==> Outcome(doc, handle, err) == Outcome(s.Zero(), None, Some(OpenFileFailed))
    ensures fileOpened && !statOk ==> Outcome(doc, handle, err) == Outcome(s.Zero(), None, Some(StatFailed))
    ensures fileOpened && statOk ==> Outcome(doc, handle, err) == Loaded(s, copied, index)
  {
    if !fileOpened {
      return s.Zero(), None, Some(OpenFileFailed);
    }
    if !statOk {
      return s.Zero(), None, Some(StatFailed);
    }
    doc, handle, err := ReadFrom(s, copied, index);
  }
}
