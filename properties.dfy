/** Properties of the entry loop of ReadFrom (module Ods): how the fold
    composes, what each early return leaves in the document, that unknown
    entries are ignored, and an order-independent description of the
    document a successful read produces, field by field. */
module OdsProperties {
  import opened Ods

  // ---------------------------------------------------------------------
  // Composition of the fold
  // ---------------------------------------------------------------------

  /** Scanning `a + b` is scanning `a` and, if that ran to the end, going on
      with `b` from the document it produced. */
  lemma {:induction false} DemuxAppend<C, M, R, S, Y>(s: Schema<C, M, R, S, Y>, d: ODS<C, M, R, S, Y>, a: seq<Entry>, b: seq<Entry>)
    ensures Demux(s, d, a + b) ==
      match Demux(s, d, a)
      case Scanned(x) => Demux(s, x, b)
      case Stopped(doc, err) => Stopped(doc, err)
    decreases |a|
  {
    if a != [] {
      assert (a + b)[0] == a[0];
      assert (a + b)[1..] == a[1..] + b;
      if a[0].opens {
        match Dispatch(s, d, a[0])
        case Failure(_) =>
        case Success(next) => DemuxAppend(s, next, a[1..], b);
      }
    } else {
      assert a + b == b;
    }
  }

  // ---------------------------------------------------------------------
  // The early returns
  // ---------------------------------------------------------------------

  /** An entry that fails to open ends the loop with the document built from
      the entries before it, not with the zero document. */
  lemma OpenFailureKeepsPrefix<C, M, R, S, Y>(s: Schema<C, M, R, S, Y>, d: ODS<C, M, R, S, Y>, files: seq<Entry>, i: nat)
    requires i < |files| && !files[i].opens
    requires Demux(s, d, files[..i]).Scanned?
    ensures Demux(s, d, files) == Stopped(Demux(s, d, files[..i]).data, OpenEntryFailed)
  {
    assert files == files[..i] + files[i..];
    DemuxAppend(s, d, files[..i], files[i..]);
  }

  /** An entry that opens but fails to decode or read ends the loop with the
      zero document, whatever the entries before it had filled in. */
  lemma DecodeFailureDiscards<C, M, R, S, Y>(s: Schema<C, M, R, S, Y>, d: ODS<C, M, R, S, Y>, files: seq<Entry>, i: nat)
    requires i < |files| && files[i].opens
    requires Demux(s, d, files[..i]).Scanned?
    requires Dispatch(s, Demux(s, d, files[..i]).data, files[i]).Failure?
    ensures Demux(s, d, files) == Stopped(s.Zero(), Dispatch(s, Demux(s, d, files[..i]).data, files[i]).error)
  {
    assert files == files[..i] + files[i..];
    DemuxAppend(s, d, files[..i], files[i..]);
  }

  /** Conversely, every early stop is one of the two above: a decode or read
      failure carries the zero document, and an open failure carries the
      document built from the entries before the one that did not open. */
  lemma {:induction false} StoppedDocument<C, M, R, S, Y>(s: Schema<C, M, R, S, Y>, d: ODS<C, M, R, S, Y>, files: seq<Entry>)
    requires Demux(s, d, files).Stopped?
    ensures Demux(s, d, files).err != OpenEntryFailed ==> Demux(s, d, files).doc == s.Zero()
    ensures Demux(s, d, files).err == OpenEntryFailed ==>
      exists i :: 0 <= i < |files| && !files[i].opens && Demux(s, d, files[..i]) == Scanned(Demux(s, d, files).doc)
    decreases |files|
  {
    if !files[0].opens {
      assert files[..0] == [];
    } else {
      match Dispatch(s, d, files[0])
      case Failure(_) =>
      case Success(next) =>
        StoppedDocument(s, next, files[1..]);
        if Demux(s, d, files).err == OpenEntryFailed {
          var j :| 0 <= j < |files[1..]| && !files[1..][j].opens
                   && Demux(s, next, files[1..][..j]) == Scanned(Demux(s, d, files).doc);
          assert files[..j + 1] == [files[0]] + files[1..][..j];
          DemuxAppend(s, d, [files[0]], files[1..][..j]);
          assert Demux(s, d, [files[0]]) == Demux(s, next, []) by {
            assert [files[0]][1..] == [];
          }
          assert Demux(s, d, files[..j + 1]) == Scanned(Demux(s, d, files).doc);
        }
    }
  }

  // ---------------------------------------------------------------------
  // Unknown entries are ignored
  // ---------------------------------------------------------------------

  /** The entries whose name is one of the six known names, in listing order. */
  function KnownEntries(files: seq<Entry>): (r: seq<Entry>)
    ensures forall e :: e in r ==> e in files && FieldOf(e.name).Some?
    decreases |files|
  {
    if files == [] then []
    else if FieldOf(files[0].name).Some? then [files[0]] + KnownEntries(files[1..])
    else KnownEntries(files[1..])
  }

  /** When every entry with an unknown name opens, dropping those entries
      changes nothing: the outcome depends on the known entries only. */
  lemma {:induction false} IgnoreUnknown<C, M, R, S, Y>(s: Schema<C, M, R, S, Y>, d: ODS<C, M, R, S, Y>, files: seq<Entry>)
    requires forall i :: 0 <= i < |files| && FieldOf(files[i].name).None? ==> files[i].opens
    ensures Demux(s, d, files) == Demux(s, d, KnownEntries(files))
    decreases |files|
  {
    if files != [] {
      assert forall i :: 0 <= i < |files[1..]| ==> files[1..][i] == files[i + 1];
      if FieldOf(files[0].name).Some? {
        var k := KnownEntries(files);
        assert k[0] == files[0] && k[1..] == KnownEntries(files[1..]);
        if files[0].opens {
          match Dispatch(s, d, files[0])
          case Failure(_) =>
          case Success(next) => IgnoreUnknown(s, next, files[1..]);
        }
      } else {
        IgnoreUnknown(s, d, files[1..]);
      }
    }
  }

  /** An entry with an unknown name is skipped, but it is still opened
      first: one that fails to open aborts the read. */
  lemma UnknownEntryStillOpened<C, M, R, S, Y>(s: Schema<C, M, R, S, Y>, d: ODS<C, M, R, S, Y>, e: Entry, rest: seq<Entry>)
    requires FieldOf(e.name).None?
    ensures e.opens ==> Demux(s, d, [e] + rest) == Demux(s, d, rest)
    ensures !e.opens ==> Demux(s, d, [e] + rest) == Stopped(d, OpenEntryFailed)
  {
  }

  // ---------------------------------------------------------------------
  // The document, field by field
  // ---------------------------------------------------------------------

  /** What the stream of each entry called `name` yields, in listing order. */
  function BodiesNamed(files: seq<Entry>, name: string): (r: seq<Option<Bytes>>)
    decreases |files|
  {
    if files == [] then []
    else if files[0].name == name then [files[0].body] + BodiesNamed(files[1..], name)
    else BodiesNamed(files[1..], name)
  }

  /** Decoding each body in turn on top of the previous result; None as soon
      as one fails. */
  function Chain<T>(decode: Decoder<T>, prior: T, bodies: seq<Option<Bytes>>): Option<T>
    decreases |bodies|
  {
    if bodies == [] then Some(prior)
    else
      match DecodeXml(decode, prior, bodies[0])
      case None => None
      case Some(v) => Chain(decode, v, bodies[1..])
  }

  /** Overwriting with each body in turn: the last body, `prior` when there
      is none, None when one of them cannot be read. */
  function Overwrite(prior: Bytes, bodies: seq<Option<Bytes>>): Option<Bytes>
    decreases |bodies|
  {
    if bodies == [] then Some(prior)
    else if bodies[0].None? then None
    else Overwrite(bodies[0].value, bodies[1..])
  }

  ghost predicate AllOpen(files: seq<Entry>) {
    forall i :: 0 <= i < |files| ==> files[i].opens
  }

  /** An order-independent account of a successful scan: every entry opens,
      and each field is what its own entries, and only those, make of it. */
  ghost function ByField<C, M, R, S, Y>(s: Schema<C, M, R, S, Y>, d: ODS<C, M, R, S, Y>, files: seq<Entry>)
    : Option<ODS<C, M, R, S, Y>>
  {
    var c := Chain(s.decodeContent, d.content, BodiesNamed(files, ContentName));
    var m := Chain(s.decodeMeta, d.meta, BodiesNamed(files, MetaName));
    var r := Chain(s.decodeManifest, d.manifest, BodiesNamed(files, ManifestName));
    var t := Chain(s.decodeSettings, d.settings, BodiesNamed(files, SettingsName));
    var y := Chain(s.decodeStyles, d.styles, BodiesNamed(files, StylesName));
    var b := Overwrite(d.mimetype, BodiesNamed(files, MimetypeName));
    if AllOpen(files) && c.Some? && m.Some? && r.Some? && t.Some? && y.Some? && b.Some?
    then Some(ODS(c.value, m.value, r.value, t.value, y.value, b.value))
    else None
  }

  /** One opened entry: ByField of the whole list is ByField of the rest
      started from what Dispatch made of the first entry, or None when
      Dispatch failed. */
  lemma ByFieldStep<C, M, R, S, Y>(s: Schema<C, M, R, S, Y>, d: ODS<C, M, R, S, Y>, e: Entry, rest: seq<Entry>)
    requires e.opens
    ensures ByField(s, d, [e] + rest) ==
      match Dispatch(s, d, e)
      case Failure(_) => None
      case Success(next) => ByField(s, next, rest)
  {
  }

  /** The loop runs to the end exactly when ByField gives a document, and
      then the document it ends with is that one. */
  lemma {:induction false} DemuxByField<C, M, R, S, Y>(s: Schema<C, M, R, S, Y>, d: ODS<C, M, R, S, Y>, files: seq<Entry>)
    ensures Demux(s, d, files).Scanned? <==> ByField(s, d, files).Some?
    ensures Demux(s, d, files).Scanned? ==> Demux(s, d, files).data == ByField(s, d, files).value
    decreases |files|
  {
    if files != [] {
      var e, rest := files[0], files[1..];
      assert files == [e] + rest;
      if !e.opens {
        assert !AllOpen(files);
      } else {
        ByFieldStep(s, d, e, rest);
        match Dispatch(s, d, e)
        case Failure(_) =>
        case Success(next) => DemuxByField(s, next, rest);
      }
    }
  }

  /** Overwrite keeps the last readable body: it succeeds exactly when every
      body can be read, and then gives the last one, or `prior` if there is
      none. */
  lemma {:induction false} OverwriteIsLast(prior: Bytes, bodies: seq<Option<Bytes>>)
    ensures Overwrite(prior, bodies).Some? <==> forall k :: 0 <= k < |bodies| ==> bodies[k].Some?
    ensures Overwrite(prior, bodies).Some? ==>
      Overwrite(prior, bodies).value == if bodies == [] then prior else bodies[|bodies| - 1].value
    decreases |bodies|
  {
    if bodies != [] {
      assert forall k :: 0 <= k < |bodies[1..]| ==> bodies[1..][k] == bodies[k + 1];
      if bodies[0].Some? {
        OverwriteIsLast(bodies[0].value, bodies[1..]);
      }
    }
  }

  /** Each named entry feeds exactly the field of its name: an entry list
      with no entry named `name` leaves BodiesNamed empty. */
  lemma {:induction false} NoBodiesNamed(files: seq<Entry>, name: string)
    requires forall i :: 0 <= i < |files| ==> files[i].name != name
    ensures BodiesNamed(files, name) == []
  {
    if files != [] {
      assert forall i :: 0 <= i < |files[1..]| ==> files[1..][i] == files[i + 1];
      NoBodiesNamed(files[1..], name);
    }
  }

  // ---------------------------------------------------------------------
  // ReadFrom as a whole
  // ---------------------------------------------------------------------

  /** The two records agree on the field `f`. */
  ghost predicate SameField<C, M, R, S, Y>(a: ODS<C, M, R, S, Y>, b: ODS<C, M, R, S, Y>, f: Field) {
    match f
    case Content => a.content == b.content
    case Meta => a.meta == b.meta
    case Manifest => a.manifest == b.manifest
    case Settings => a.settings == b.settings
    case Styles => a.styles == b.styles
    case Mimetype => a.mimetype == b.mimetype
  }

  /** On every error path the handle is nil; the copy, index, decode and read
      failures also return the zero document. */
  lemma ErrorOutcome<C, M, R, S, Y>(s: Schema<C, M, R, S, Y>, copied: bool, index: Option<Archive>)
    requires Loaded(s, copied, index).err.Some?
    ensures Loaded(s, copied, index).handle.None?
    ensures Loaded(s, copied, index).err != Some(OpenEntryFailed) ==> Loaded(s, copied, index).doc == s.Zero()
  {
  }

  /** ReadFrom succeeds exactly when the copy and the zip index succeed and
      ByField gives a document from the zero one, and that document is the
      one returned, with the archive as handle. */
  lemma ReadFromSucceeds<C, M, R, S, Y>(s: Schema<C, M, R, S, Y>, copied: bool, index: Option<Archive>)
    ensures Loaded(s, copied, index).err.None? <==>
      copied && index.Some? && ByField(s, s.Zero(), index.value.files).Some?
    ensures Loaded(s, copied, index).err.None? ==>
      Loaded(s, copied, index) == Outcome(ByField(s, s.Zero(), index.value.files).value, index, None)
  {
    if copied && index.Some? {
      DemuxByField(s, s.Zero(), index.value.files);
    }
  }

  /** On success, Mimetype holds the bytes of the last `mimetype` entry
      verbatim, or nothing when there is no such entry. */
  lemma MimetypeIsLastEntry<C, M, R, S, Y>(s: Schema<C, M, R, S, Y>, a: Archive)
    requires Loaded(s, true, Some(a)).err.None?
    ensures var bodies := BodiesNamed(a.files, MimetypeName);
      if bodies == [] then Loaded(s, true, Some(a)).doc.mimetype == []
      else Some(Loaded(s, true, Some(a)).doc.mimetype) == bodies[|bodies| - 1]
  {
    DemuxByField(s, s.Zero(), a.files);
    OverwriteIsLast([], BodiesNamed(a.files, MimetypeName));
  }

  /** On success, a known entry missing from the archive leaves its field at
      the zero value. */
  lemma AbsentEntryKeepsZero<C, M, R, S, Y>(s: Schema<C, M, R, S, Y>, a: Archive, f: Field)
    requires Loaded(s, true, Some(a)).err.None?
    requires forall i :: 0 <= i < |a.files| ==> a.files[i].name != NameOf(f)
    ensures SameField(Loaded(s, true, Some(a)).doc, s.Zero(), f)
  {
    DemuxByField(s, s.Zero(), a.files);
    NoBodiesNamed(a.files, NameOf(f));
  }

  /** An archive whose entries all open and none of which has a known name
      yields the zero document, the archive handle and no error. */
  lemma NoKnownEntries<C, M, R, S, Y>(s: Schema<C, M, R, S, Y>, a: Archive)
    requires forall i :: 0 <= i < |a.files| ==> a.files[i].opens && FieldOf(a.files[i].name).None?
    ensures Loaded(s, true, Some(a)) == Outcome(s.Zero(), Some(a), None)
  {
    IgnoreUnknown(s, s.Zero(), a.files);
  }
}
