/** The reorder screen: a grid of page tiles that can be dragged, rotated
    and removed, and a save button that writes the pages out in grid order
    with the requested rotations. */
module ReorderFeature {
  import opened Wrappers
  import opened Pdf
  import opened Sortable
  import opened Busy
  import opened Delivery

  /** A tile: which page of the loaded file it shows (0-based) and the extra
      rotation asked for, in degrees. It starts at 0 and only ever becomes
      `(r + 90) % 360`, so it is never negative. */
  datatype PageRef = PageRef(originalIndex: nat, rotation: nat)

  type PageItem = Keyed<PageRef>

  datatype State = State(file: Option<PdfFile>, pages: seq<PageItem>, loading: bool, saving: bool)

  const OutputName := "organized.pdf"

  /** One tile per page, in page order, each unrotated. */
  function InitialPages(ids: seq<string>): (r: seq<PageItem>)
    ensures |r| == |ids|
    ensures forall k :: 0 <= k < |r| ==> r[k].id == ids[k] && r[k].val == PageRef(k, 0)
  {
    seq(|ids|, k requires 0 <= k < |ids| => Keyed(ids[k], PageRef(k, 0)))
  }

  /** `handleUpload(files)`: an empty drop does nothing. Otherwise the first
      file becomes current and the grid gets one unrotated tile per page, with
      `ids[k]` the random id drawn for page k; `counted` is the page count
      pdf.js reports, or the error that counting or rendering a thumbnail
      raised, in which case the grid stays empty and the file is dropped. */
  function HandleUpload(s: State, files: seq<PdfFile>, counted: Result<nat, PdfError>, ids: seq<string>): (r: State)
    requires counted.Success? ==> |ids| == counted.value
    ensures |files| == 0 ==> r == s
    ensures |files| > 0 && counted.Success? ==>
      && r.file == Some(files[0])
      && |r.pages| == counted.value
      && (forall k :: 0 <= k < |r.pages| ==> r.pages[k].val.originalIndex == k && r.pages[k].val.rotation == 0)
      && (forall k :: 0 <= k < |r.pages| ==> r.pages[k].id == ids[k])
    ensures |files| > 0 && counted.Failure? ==> r.file == None && r.pages == []
    ensures |files| > 0 ==> !r.loading && r.saving == s.saving
  {
    if |files| == 0 then s
    else
      match counted
      case Success(_) => State(Some(files[0]), InitialPages(ids), false, s.saving)
      case Failure(_) => State(None, [], false, s.saving)
  }

  /** Distinct random ids give a grid with unique ids, the precondition of
      every editing property below. */
  lemma {:induction false} UploadGivesUniqueIds(s: State, files: seq<PdfFile>, counted: Result<nat, PdfError>, ids: seq<string>)
    requires counted.Success? ==> |ids| == counted.value
    requires forall i, j :: 0 <= i < j < |ids| ==> ids[i] != ids[j]
    ensures UniqueIds(s.pages) ==> UniqueIds(HandleUpload(s, files, counted, ids).pages)
  {
    var r := HandleUpload(s, files, counted, ids);
    if |files| > 0 && counted.Success? {
      forall i, j | 0 <= i < j < |r.pages| ensures r.pages[i].id != r.pages[j].id {
        assert r.pages[i].id == ids[i] && r.pages[j].id == ids[j];
      }
    }
  }

  /** The "change file" button. */
  function ChangeFile(s: State): (r: State)
    ensures r.file == None && r.pages == []
    ensures r.saving == s.saving && r.loading == s.loading
  {
    s.(file := None, pages := [])
  }

  // ---------------------------------------------------------------------
  // Grid transitions
  // ---------------------------------------------------------------------

  function RotateRight(r: nat): nat {
    (r + 90) % 360
  }

  /** `handleRotate(id)`: every tile with that id turns a quarter right;
      all other tiles, and every tile's page and id, are unchanged. */
  function Rotate(pages: seq<PageItem>, id: string): (r: seq<PageItem>)
    ensures |r| == |pages|
    ensures forall k :: 0 <= k < |r| ==> r[k].id == pages[k].id && r[k].val.originalIndex == pages[k].val.originalIndex
    ensures forall k :: 0 <= k < |r| && pages[k].id != id ==> r[k] == pages[k]
    ensures forall k :: 0 <= k < |r| && pages[k].id == id ==> r[k].val.rotation == RotateRight(pages[k].val.rotation)
  {
    seq(|pages|, k requires 0 <= k < |pages| =>
      if pages[k].id == id then pages[k].(val := pages[k].val.(rotation := RotateRight(pages[k].val.rotation)))
      else pages[k])
  }

  /** `handleRemove(id)`: the tiles with that id go, every other tile stays
      (as often as it was there). */
  function Remove(pages: seq<PageItem>, id: string): (r: seq<PageItem>)
    ensures forall k :: 0 <= k < |r| ==> r[k].id != id
    ensures multiset(r) <= multiset(pages)
    ensures forall k :: 0 <= k < |pages| && pages[k].id != id ==> multiset(r)[pages[k]] == multiset(pages)[pages[k]]
  {
    RemoveById(pages, id)
  }

  /** `handleDragEnd`. */
  function Move(pages: seq<PageItem>, active: string, over: Option<string>): (r: seq<PageItem>)
    ensures multiset(r) == multiset(pages)
    ensures over.None? || over.value == active ==> r == pages
  {
    DragEnd(pages, active, over)
  }

  predicate RightAngle(r: nat) {
    r == 0 || r == 90 || r == 180 || r == 270
  }

  predicate AllRightAngles(pages: seq<PageItem>) {
    forall k :: 0 <= k < |pages| ==> RightAngle(pages[k].val.rotation)
  }

  /** Rotating keeps every tile's rotation among 0, 90, 180 and 270. */
  lemma {:induction false} RotateKeepsRightAngles(pages: seq<PageItem>, id: string)
    requires AllRightAngles(pages)
    ensures AllRightAngles(Rotate(pages, id))
  {
    var r := Rotate(pages, id);
    forall k | 0 <= k < |r| ensures RightAngle(r[k].val.rotation) {
      if pages[k].id == id {
        var a := pages[k].val.rotation;
        assert RotateRight(a) == if a == 270 then 0 else a + 90;
      }
    }
  }

  /** Four quarter turns bring every tile back, since rotations stay below
      360. */
  lemma {:induction false} FourRotationsRestore(pages: seq<PageItem>, id: string)
    requires forall k :: 0 <= k < |pages| ==> pages[k].val.rotation < 360
    ensures Rotate(Rotate(Rotate(Rotate(pages, id), id), id), id) == pages
  {
    var r1 := Rotate(pages, id);
    var r2 := Rotate(r1, id);
    var r3 := Rotate(r2, id);
    var r4 := Rotate(r3, id);
    forall k | 0 <= k < |pages| ensures r4[k] == pages[k] {
      if pages[k].id == id {
        FullTurn(pages[k].val.rotation);
        assert r4[k].val == pages[k].val;
      }
    }
  }

  lemma {:induction false} FullTurn(a: nat)
    requires a < 360
    ensures RotateRight(RotateRight(RotateRight(RotateRight(a)))) == a
  {
  }

  // ---------------------------------------------------------------------
  // Edit sequences
  // ---------------------------------------------------------------------

  datatype Edit = DragTo(active: string, over: Option<string>) | RotateTile(id: string) | RemoveTile(id: string)

  function ApplyEdit(pages: seq<PageItem>, e: Edit): seq<PageItem> {
    match e
    case DragTo(active, over) => Move(pages, active, over)
    case RotateTile(id) => Rotate(pages, id)
    case RemoveTile(id) => Remove(pages, id)
  }

  function ApplyEdits(pages: seq<PageItem>, es: seq<Edit>): seq<PageItem>
    decreases |es|
  {
    if |es| == 0 then pages else ApplyEdits(ApplyEdit(pages, es[0]), es[1..])
  }

  function RemovedIds(es: seq<Edit>): set<string> {
    set i | 0 <= i < |es| && es[i].RemoveTile? :: es[i].id
  }

  lemma {:induction false} RotateKeepsIds(pages: seq<PageItem>, id: string)
    ensures Ids(Rotate(pages, id)) == Ids(pages)
    ensures UniqueIds(pages) ==> UniqueIds(Rotate(pages, id))
  {
    var r := Rotate(pages, id);
    forall x | x in Ids(pages) ensures x in Ids(r) {
      var k :| 0 <= k < |pages| && pages[k].id == x;
      assert r[k].id == x;
    }
  }

  lemma {:induction false} EditKeepsIds(pages: seq<PageItem>, e: Edit)
    requires UniqueIds(pages)
    ensures UniqueIds(ApplyEdit(pages, e))
    ensures Ids(ApplyEdit(pages, e)) == if e.RemoveTile? then Ids(pages) - {e.id} else Ids(pages)
  {
    match e
    case DragTo(active, over) =>
      PermutationKeepsUniqueIds(pages, Move(pages, active, over));
      PermutationKeepsIds(pages, Move(pages, active, over));
    case RotateTile(id) =>
      RotateKeepsIds(pages, id);
    case RemoveTile(id) =>
      RemoveByIdLength(pages, id);
  }

  /** Any sequence of drags, rotations and removals on tiles with unique ids
      keeps the ids unique and loses exactly the removed ids. */
  lemma {:induction false} EditsKeepIds(pages: seq<PageItem>, es: seq<Edit>)
    requires UniqueIds(pages)
    ensures UniqueIds(ApplyEdits(pages, es))
    ensures Ids(ApplyEdits(pages, es)) == Ids(pages) - RemovedIds(es)
    decreases |es|
  {
    if |es| > 0 {
      EditKeepsIds(pages, es[0]);
      EditsKeepIds(ApplyEdit(pages, es[0]), es[1..]);
      RemovedIdsCons(es);
    }
  }

  lemma {:induction false} RemovedIdsCons(es: seq<Edit>)
    requires |es| > 0
    ensures RemovedIds(es) == (if es[0].RemoveTile? then {es[0].id} else {}) + RemovedIds(es[1..])
  {
    var removedHere: set<string> := if es[0].RemoveTile? then {es[0].id} else {};
    forall x | x in RemovedIds(es) ensures x in removedHere + RemovedIds(es[1..]) {
      var i :| 0 <= i < |es| && es[i].RemoveTile? && es[i].id == x;
      if i > 0 { assert es[1..][i - 1] == es[i]; }
    }
    forall x | x in RemovedIds(es[1..]) ensures x in RemovedIds(es) {
      var i :| 0 <= i < |es[1..]| && es[1..][i].RemoveTile? && es[1..][i].id == x;
      assert es[i + 1] == es[1..][i];
    }
  }

  /** So the grid shrinks only by removals: its length is the number of
      original tiles whose id was never removed. */
  lemma {:induction false} EditsLength(pages: seq<PageItem>, es: seq<Edit>)
    requires UniqueIds(pages)
    ensures |ApplyEdits(pages, es)| == |Ids(pages) - RemovedIds(es)|
  {
    EditsKeepIds(pages, es);
    UniqueIdsCount(ApplyEdits(pages, es));
  }

  // ---------------------------------------------------------------------
  // Save
  // ---------------------------------------------------------------------

  function SourceIndices(pages: seq<PageItem>): (r: seq<int>)
    ensures |r| == |pages|
    ensures forall i :: 0 <= i < |r| ==> r[i] == pages[i].val.originalIndex
  {
    seq(|pages|, i requires 0 <= i < |pages| => pages[i].val.originalIndex as int)
  }

  /** Every tile shows a page of `doc`. */
  predicate InRange(doc: Doc, pages: seq<PageItem>) {
    forall i :: 0 <= i < |pages| ==> pages[i].val.originalIndex < |doc|
  }

  /** Every tile shows a page of `doc`, and its page's angle plus the tile's
      rotation is one `setRotation` accepts. */
  predicate Savable(doc: Doc, pages: seq<PageItem>) {
    forall i :: 0 <= i < |pages| ==>
      && pages[i].val.originalIndex < |doc|
      && RotationAllowed(doc[pages[i].val.originalIndex].angle + pages[i].val.rotation)
  }

  /** The copies turned by their tiles' rotations. */
  function TurnAll(copied: Doc, pages: seq<PageItem>): (r: Doc)
    requires |copied| == |pages|
    ensures |r| == |pages|
    ensures forall i :: 0 <= i < |r| ==> r[i] == Page(copied[i].content, copied[i].angle + pages[i].val.rotation)
  {
    seq(|pages|, i requires 0 <= i < |pages| => Page(copied[i].content, copied[i].angle + pages[i].val.rotation))
  }

  /** The page building of `handleSave`: copy the tiles' pages in grid order,
      then set each copy's rotation to its own angle plus the tile's rotation
      (no reduction modulo 360). A tile pointing past the document fails the
      copy; a sum that is not a multiple of 90 makes `setRotation` throw. */
  function Organize(doc: Doc, pages: seq<PageItem>): (r: Result<Doc, PdfError>)
    ensures r.Success? <==> Savable(doc, pages)
    ensures r.Failure? ==> r.error == if InRange(doc, pages) then RotationError else PageIndexError
    ensures r.Success? ==> |r.value| == |pages|
    ensures r.Success? ==> forall i :: 0 <= i < |pages| ==>
      var src := doc[pages[i].val.originalIndex];
      r.value[i] == Page(src.content, src.angle + pages[i].val.rotation)
  {
    match CopyPages(doc, SourceIndices(pages))
    case Failure(e) => Failure(e)
    case Success(copied) =>
      CopiedTurns(doc, pages, copied);
      if forall i :: 0 <= i < |pages| ==> RotationAllowed(copied[i].angle + pages[i].val.rotation) then
        Success(TurnAll(copied, pages))
      else Failure(RotationError)
  }

  lemma {:induction false} CopiedTurns(doc: Doc, pages: seq<PageItem>, copied: Doc)
    requires CopyPages(doc, SourceIndices(pages)) == Success(copied)
    ensures InRange(doc, pages) && |copied| == |pages|
    ensures forall i :: 0 <= i < |pages| ==> copied[i] == doc[pages[i].val.originalIndex]
    ensures (forall i :: 0 <= i < |pages| ==> RotationAllowed(copied[i].angle + pages[i].val.rotation)) <==> Savable(doc, pages)
  {
    assert IndicesIn(doc, SourceIndices(pages));
    forall i | 0 <= i < |pages| ensures pages[i].val.originalIndex < |doc| && copied[i] == doc[pages[i].val.originalIndex] {
      assert SourceIndices(pages)[i] == pages[i].val.originalIndex;
    }
  }

  /** Saving a freshly loaded grid reproduces the document page for page,
      unless one of its pages carries an angle `setRotation` refuses. */
  lemma {:induction false} OrganizeFreshGrid(doc: Doc, ids: seq<string>)
    requires |ids| == |doc|
    ensures Organize(doc, InitialPages(ids)) ==
      if forall i :: 0 <= i < |doc| ==> RotationAllowed(doc[i].angle) then Success(doc) else Failure(RotationError)
  {
    var r := Organize(doc, InitialPages(ids));
    if forall i :: 0 <= i < |doc| ==> RotationAllowed(doc[i].angle) {
      assert r.Success?;
      assert r.value == doc;
    } else {
      var i :| 0 <= i < |doc| && !RotationAllowed(doc[i].angle);
      assert InitialPages(ids)[i].val == PageRef(i, 0);
      assert r.Failure?;
    }
  }

  /** A page whose own angle is no multiple of 90 (a /Rotate of 45, say)
      cannot be saved, even unrotated. */
  lemma {:induction false} OrganizeRejectsOddAngle(content: nat, id: string)
    ensures Organize([Page(content, 45)], [Keyed(id, PageRef(0, 0))]) == Failure(RotationError)
  {
    var pages := [Keyed(id, PageRef(0, 0))];
    assert !RotationAllowed([Page(content, 45)][pages[0].val.originalIndex].angle + pages[0].val.rotation);
  }

  /** With every page of the document at a multiple of 90 and every tile at
      a right angle, saving fails only on a tile past the document. */
  lemma {:induction false} RightAngledSaves(doc: Doc, pages: seq<PageItem>)
    requires forall i :: 0 <= i < |doc| ==> RotationAllowed(doc[i].angle)
    requires AllRightAngles(pages)
    ensures Organize(doc, pages).Success? <==> forall i :: 0 <= i < |pages| ==> pages[i].val.originalIndex < |doc|
  {
    forall i | 0 <= i < |pages| && pages[i].val.originalIndex < |doc|
      ensures RotationAllowed(doc[pages[i].val.originalIndex].angle + pages[i].val.rotation)
    {
      assert RightAngle(pages[i].val.rotation);
      assert RotationAllowed(doc[pages[i].val.originalIndex].angle);
    }
  }

  /** Rotations compose by plain addition: a page already turned 270 degrees
      and rotated once more in the grid is written out at 360, not 0. */
  lemma {:induction false} OrganizeDoesNotNormalise(content: nat, id: string)
    ensures Organize([Page(content, 270)], [Keyed(id, PageRef(0, 90))]) == Success([Page(content, 360)])
  {
    var r := Organize([Page(content, 270)], [Keyed(id, PageRef(0, 90))]);
    assert r.Success?;
    assert r.value == [Page(content, 360)];
  }

  /** The save button is enabled while not saving and the grid is not
      empty. */
  predicate SaveEnabled(s: State) {
    Enabled(s.saving, |s.pages| > 0)
  }

  /** A click on the save button. The handler returns at once without a file
      or with an empty grid; otherwise it raises `isSaving`, loads the file,
      organizes the pages, downloads the result as `organized.pdf`, reports
      any error, and lowers the flag in `finally`. */
  function ClickSave(s: State, ws: Workspace, env: Env): (r: Outcome<State>)
    ensures SaveEnabled(s) && s.file.Some? && r.delivered.None? ==> r.failure.Some?
    ensures !SaveEnabled(s) || s.file.None? ==> r == Outcome(s, ws, None, None)
    ensures r.workspace == ws && r.state.pages == s.pages && r.state.file == s.file && r.state.loading == s.loading
    ensures !r.state.saving || r.state == s
    ensures r.delivered.Some? ==> r.failure.None?
    ensures r.delivered.Some? <==>
      && SaveEnabled(s) && s.file.Some? && s.file.value.parsed.Success?
      && Savable(s.file.value.parsed.value, s.pages)
    ensures r.delivered.Some? ==>
      var doc := s.file.value.parsed.value;
      && r.delivered.value.dest == Download
      && r.delivered.value.name == OutputName
      && r.delivered.value.artifact.PdfBytes?
      && |r.delivered.value.artifact.doc| == |s.pages|
      && forall i :: 0 <= i < |s.pages| ==>
        var src := doc[s.pages[i].val.originalIndex];
        r.delivered.value.artifact.doc[i] == Page(src.content, src.angle + s.pages[i].val.rotation)
  {
    if !SaveEnabled(s) || s.file.None? || |s.pages| == 0 then Outcome(s, ws, None, None)
    else
      var done := s.(saving := false);
      var built := match s.file.value.parsed
        case Failure(e) => Failure(e)
        case Success(doc) => Organize(doc, s.pages);
      match built
      case Failure(e) => Outcome(done, ws, None, Some(e))
      case Success(out) =>
        match Deliver(ws, env, false, OutputName, PdfBytes(out))
        case Failure(e) => Outcome(done, ws, None, Some(e))
        case Success((ws', d)) => Outcome(done, ws', Some(d), None)
  }
}
