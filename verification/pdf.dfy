/** Abstract PDF documents as the features see them through pdf-lib: a
    document is its sequence of pages, each page an opaque content token plus
    the rotation angle recorded in the page itself. Parsing and serialising
    are outside the model; a file carries the outcome of reading and parsing
    it. */
module Pdf {
  import opened Wrappers

  /** The error kinds a document operation can raise. */
  datatype PdfError =
    | SourceReadError   // the file's bytes could not be read
    | ParseError        // the bytes are not a document
    | PageIndexError    // a page index outside the source document
    | SerializeError    // the output document could not be encoded
    | StorageError      // the workspace store rejected a write
    | RotationError     // `setRotation` was given an angle that is not a multiple of 90

  /** One page: opaque content and its rotation angle in degrees. */
  datatype Page = Page(content: nat, angle: int)

  type Doc = seq<Page>

  /** The angles pdf-lib's `setRotation` accepts: it asserts a multiple of
      90 degrees and throws otherwise. The test `angle % 90 == 0` gives the
      same answer under JavaScript's truncating `%` as under Dafny's. */
  predicate RotationAllowed(angle: int) {
    angle % 90 == 0
  }

  /** An uploaded (or workspace-picked) file: its name and what
      `file.arrayBuffer()` followed by `PDFDocument.load` yields. */
  datatype PdfFile = PdfFile(name: string, parsed: Result<Doc, PdfError>)

  predicate IndicesIn(src: Doc, indices: seq<int>) {
    forall i :: 0 <= i < |indices| ==> 0 <= indices[i] < |src|
  }

  /** `copyPages(src, indices)`: a copy of every indexed page, in the order of
      `indices` (duplicates allowed); any index outside the source fails the
      whole call. A copied page keeps its own rotation. */
  function CopyPages(src: Doc, indices: seq<int>): (r: Result<Doc, PdfError>)
    ensures r.Success? <==> IndicesIn(src, indices)
    ensures r.Failure? ==> r.error == PageIndexError
    ensures r.Success? ==> |r.value| == |indices|
    ensures r.Success? ==> forall i :: 0 <= i < |indices| ==> r.value[i] == src[indices[i]]
  {
    if |indices| == 0 then Success([])
    else if !(0 <= indices[0] < |src|) then Failure(PageIndexError)
    else
      match CopyPages(src, indices[1..])
      case Failure(e) => Failure(e)
      case Success(rest) => Success([src[indices[0]]] + rest)
  }

  /** The identity index list `[0, 1, ..., n-1]`, as `getPageIndices()` returns. */
  function PageIndices(n: nat): (r: seq<int>)
    ensures |r| == n
    ensures forall i :: 0 <= i < n ==> r[i] == i
  {
    seq(n, i => i)
  }

  /** Copying every page index of a document in order copies the whole
      document. */
  lemma {:induction false} CopyAllPages(src: Doc)
    ensures CopyPages(src, PageIndices(|src|)) == Success(src)
  {
    var r := CopyPages(src, PageIndices(|src|));
    assert r.Success?;
    assert r.value == src;
  }
}
