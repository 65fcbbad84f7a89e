/** What an output handler produces and where it goes: the serialised PDF
    bytes or the zip of single-page PDFs, delivered either as a browser
    download or as a new workspace record. */
module Delivery {
  import opened Wrappers
  import opened Pdf
  import opened Storage

  /** One file of the split-all archive. */
  datatype ZipEntry = ZipEntry(name: string, doc: Doc)

  datatype Artifact =
    | PdfBytes(doc: Doc)                   // `newPdf.save()` / `mergePDFs` output, a byte array
    | ZipArchive(entries: seq<ZipEntry>)   // `zip.generateAsync({type: 'blob'})`, a Blob

  datatype Destination = Download | Workspace

  datatype Delivery = Delivery(dest: Destination, name: string, artifact: Artifact)

  type Workspace = Store<Artifact>

  /** The MIME type JSZip gives a generated archive blob. */
  const ZipMime := "application/zip"

  /** What one handler run learns from the outside world: the UUID and the
      time a workspace save would use, the byte count of the serialised
      output, and whether the database accepts the write. */
  datatype Env = Env(freshId: string, now: int, byteLength: nat, storeAccepts: bool)

  /** How an artifact reaches `saveFileToWorkspace`: PDF output as pdf-lib's
      byte array, the archive as a Blob. */
  function AsInput(a: Artifact, byteLength: nat): Input<Artifact> {
    match a
    case PdfBytes(_) => ByteArray(byteLength, a)
    case ZipArchive(_) => BlobInput(ZipMime, byteLength, a)
  }

  /** The last step of an output handler: with `toWorkspace` the artifact is
      saved under `name` as a fresh record (a rejected write fails the run),
      otherwise it is downloaded under `name` and the workspace is untouched. */
  function Deliver(ws: Workspace, env: Env, toWorkspace: bool, name: string, a: Artifact)
    : (r: Result<(Workspace, Delivery), PdfError>)
    ensures r.Success? ==> r.value.1 == Delivery(if toWorkspace then Workspace else Download, name, a)
    ensures !toWorkspace ==> r.Success? && r.value.0 == ws
    ensures toWorkspace && !env.storeAccepts ==> r == Failure(StorageError)
    ensures toWorkspace && env.storeAccepts ==>
      && r.Success?
      && r.value.0 == Save(ws, AsInput(a, env.byteLength), name, env.freshId, env.now).0
      && GetContent(r.value.0, env.freshId) == Some(a)
  {
    if !toWorkspace then Success((ws, Delivery(Download, name, a)))
    else if !env.storeAccepts then Failure(StorageError)
    else
      var (ws', _) := Save(ws, AsInput(a, env.byteLength), name, env.freshId, env.now);
      Success((ws', Delivery(Workspace, name, a)))
  }

  /** The result of one click on an output button: the screen's state after
      the handler, the workspace, what was delivered, and the error the
      `catch` block reported. */
  datatype Outcome<S> = Outcome(state: S, workspace: Workspace, delivered: Option<Delivery>, failure: Option<PdfError>)
}
