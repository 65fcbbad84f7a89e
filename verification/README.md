# prism-pdf page-set and workspace model

A Dafny model of the core of prism-pdf, a browser tool that merges, splits,
reorders and stores PDF documents on the user's own device. The model covers
the following:

- **Reorder screen** (`ReorderFeature`). Each page of the loaded file is a
  tile with a random id. Tiles can be dragged, rotated a quarter turn and
  removed. Saving copies the tiles' pages in grid order, adds each tile's
  rotation to the page's own rotation, and downloads `organized.pdf`.
- **Split screen** (`SplitFeature`). Clicking page thumbnails toggles a
  selection. Extracting copies the selected pages in ascending page order
  into `extracted.pdf`. Splitting puts every page into its own one-page
  document inside `split-pages.zip`, under the entry name `page - N.pdf`.
- **Merge screen** (`MergeFeature`). A drag-sortable list of uploaded files
  with ids. It supports upload (append), remove and clear. With at least two
  files, the merge produces `merged.pdf`.
- **`mergePDFs`** (`PdfUtils`). Every page of every input, file after file.
  The first file that fails to load aborts the merge.
- **Workspace store** (`Storage`). The IndexedDB object store as a map from
  id to record. It covers save, list (newest first), get-content and
  delete.

Shared pieces:

- `Sortable` holds the id-keyed lists behind both drag-and-drop screens:
  `findIndex`, dnd-kit's `arrayMove` with its `splice` semantics, and the
  filter by id.
- `Pdf` holds documents as page sequences and pdf-lib's `copyPages`.
- `Busy` holds the in-flight flag that disables an action button while its
  handler runs.
- `Delivery` holds the last step of every output handler: download, or
  save to the workspace.
- `Decimal` and `Lexicographic` provide the number rendering in entry names
  and the string order of the `by-date` index's key tie-break.

The outside world is a parameter:

- pdf.js page counts and thumbnail success;
- the ids `Math.random()` draws;
- `crypto.randomUUID()` and `Date.now()` (the `Env` of a delivery);
- the serialised byte length;
- whether the database accepts a write.

Each screen handler is a pure function from the screen's state (and the
workspace) to its next state. Output handlers return an `Outcome`: the new
state, the new workspace, what was delivered, and the error the `catch`
block reported.

## Model

| member | source | states |
|---|---|---|
| Pdf.CopyPages | src/components/features/ReorderFeature.tsx:170 | copying succeeds exactly when every index is a page of the source; the copy has one page per index, in index order, each equal to the indexed page; otherwise it fails with a page-index error |
| Pdf.CopyAllPages | src/lib/pdf-utils.ts:9 | copying a document's own page indices reproduces the document |
| PdfUtils.MergePdfs | src/lib/pdf-utils.ts:3-14 | the merge succeeds exactly when every input loads; its length is the inputs' total page count; a failure carries the error of an input all of whose predecessors loaded (the first failing one) |
| PdfUtils.MergePlacement | src/lib/pdf-utils.ts:6-11 | page k of input j is page Offset(j)+k of the merge: each input contributes all its pages, in order, after the pages of the inputs before it |
| PdfUtils.MergeIsPages | src/lib/pdf-utils.ts:6-11 | on inputs that all load, the merge is their pages file after file |
| PdfUtils.MergeAppend | src/lib/pdf-utils.ts:6-11 | merging a concatenated list is concatenating the merges of its parts |
| PdfUtils.MergeSingle | src/lib/pdf-utils.ts:6-11 | merging one file reproduces its pages |
| Sortable.FindIndex | src/components/features/ReorderFeature.tsx:130-131 | result in -1..n-1; a non-negative result is the first position holding the id; -1 exactly when the id is absent |
| Sortable.ArrayMove | src/components/features/ReorderFeature.tsx:133 | a permutation of the list that holds the moved element at the target position; deleting it there gives the list with it deleted at the source position (all other elements keep their relative order); -1 reads as the last position |
| Sortable.DragEnd | src/components/features/ReorderFeature.tsx:126-136 | a permutation of the list; no drop target, or a drop on itself, leaves the list unchanged |
| Sortable.DragEndMoves | src/components/features/MergeFeature.tsx:93-103 | with unique ids and both ids present, the dragged element lands at the drop target's old position, the other elements keep their order, and ids stay unique |
| Sortable.PermutationKeepsUniqueIds | src/components/features/MergeFeature.tsx:93-103 | any rearrangement of a unique-id list has unique ids |
| Sortable.RemoveById | src/components/features/ReorderFeature.tsx:144-146 | no remaining element has the id; a sub-multiset of the list that keeps every element with another id, each as often as before |
| Sortable.RemoveByIdAt | src/components/features/MergeFeature.tsx:89-91 | with unique ids, removing the id at position k deletes exactly position k |
| Sortable.RemoveByIdLength | src/components/features/ReorderFeature.tsx:144-146 | with unique ids, removal shortens the list by one exactly when the id is present, keeps ids unique, and drops exactly that id |
| ReorderFeature.InitialPages | src/components/features/ReorderFeature.tsx:106-114 | one unrotated tile per page, in page order, tile k showing page k under id k |
| ReorderFeature.HandleUpload | src/components/features/ReorderFeature.tsx:96-124 | an empty drop changes nothing; a counted file becomes current with one unrotated tile per page in order, tile k carrying the k-th drawn id; a failed count or render leaves no file and no tiles; loading ends |
| ReorderFeature.UploadGivesUniqueIds | src/components/features/ReorderFeature.tsx:106-114 | distinct drawn ids give a grid whose tile ids are unique |
| ReorderFeature.ChangeFile | src/components/features/ReorderFeature.tsx:227-230 | file and tiles are cleared; the loading and saving flags are unchanged |
| ReorderFeature.Rotate | src/components/features/ReorderFeature.tsx:138-142 | tiles with the id turn a quarter right modulo 360; every other tile, and every tile's id and page, is unchanged |
| ReorderFeature.RotateKeepsRightAngles | src/components/features/ReorderFeature.tsx:140 | rotations stay in {0, 90, 180, 270} |
| ReorderFeature.FourRotationsRestore | src/components/features/ReorderFeature.tsx:138-142 | four rotations of the same id restore the grid |
| ReorderFeature.Remove | src/components/features/ReorderFeature.tsx:144-146 | no tile has the id; every tile with another id remains, as often as before, and nothing else is added |
| ReorderFeature.Move | src/components/features/ReorderFeature.tsx:126-136 | a permutation of the grid; no target or a self-drop changes nothing |
| ReorderFeature.EditKeepsIds | src/components/features/ReorderFeature.tsx:126-146 | one drag, rotation or removal keeps ids unique and removes only the removed id |
| ReorderFeature.EditsKeepIds | src/components/features/ReorderFeature.tsx:126-146 | any sequence of drags, rotations and removals keeps ids unique and loses exactly the removed ids |
| ReorderFeature.EditsLength | src/components/features/ReorderFeature.tsx:126-146 | the grid's size after any edits is the number of original ids never removed |
| ReorderFeature.Organize | src/components/features/ReorderFeature.tsx:168-180 | the build succeeds exactly when every tile is a page of the document and its angle plus the tile's rotation is a multiple of 90; the output has one page per tile in grid order, each the tile's source page with angle = its own angle + the tile's rotation; a tile past the document fails with a page-index error, otherwise a refused angle fails with a rotation error |
| ReorderFeature.OrganizeFreshGrid | src/components/features/ReorderFeature.tsx:168-180 | saving a freshly loaded grid reproduces the document when every page's angle is a multiple of 90, and fails with a rotation error otherwise |
| ReorderFeature.OrganizeRejectsOddAngle | src/components/features/ReorderFeature.tsx:175-178 | a page stored at 45 degrees cannot be saved, even unrotated |
| ReorderFeature.RightAngledSaves | src/components/features/ReorderFeature.tsx:168-180 | with a document at multiples of 90 and tiles at right angles, saving fails only on a tile past the document |
| ReorderFeature.OrganizeDoesNotNormalise | src/components/features/ReorderFeature.tsx:176-178 | a 270-degree page rotated once more is written at 360, not 0 |
| ReorderFeature.ClickSave | src/components/features/ReorderFeature.tsx:148-201 | nothing happens while disabled or without a file; otherwise the saving flag ends down and the file, grid and loading flag are unchanged; a delivery happens exactly when the file loads, every tile is in range and every written angle is a multiple of 90, and it is a download named organized.pdf holding the organized pages; a delivery and a failure never both happen, and a run that delivers nothing reports an error |
| SplitFeature.HandleUpload | src/components/features/SplitFeature.tsx:21-46 | an empty drop changes nothing; otherwise the selection is cleared; the file stays exactly when counting and rendering succeed; a successful count is stored even when a thumbnail then fails, and a failed count keeps the old one |
| SplitFeature.ChangeFile | src/components/features/SplitFeature.tsx:171-176 | file and selection are cleared; the page count and the loading and processing flags are unchanged |
| SplitFeature.Without | src/components/features/SplitFeature.tsx:51 | the element is gone, every other element's membership is unchanged, no duplicates appear |
| SplitFeature.Toggle | src/components/features/SplitFeature.tsx:48-56 | the page's membership flips, all others stay, and the selection stays free of duplicates |
| SplitFeature.ToggleTwice | src/components/features/SplitFeature.tsx:48-56 | toggling a page twice restores the set of selected pages |
| SplitFeature.ToggleTwiceFresh | src/components/features/SplitFeature.tsx:48-56 | for an unselected page, toggling twice restores the selection exactly, order included |
| SplitFeature.ClickOrderExample | src/components/features/SplitFeature.tsx:48-56 | clicking 3, 1, 7 selects them in click order |
| SplitFeature.SortAscending | src/components/features/SplitFeature.tsx:66 | the output is ascending and a permutation of the input |
| SplitFeature.InsertFacts | src/components/features/SplitFeature.tsx:66 | inserting into an ascending list keeps it ascending and adds exactly that number |
| SplitFeature.AscendingUnique | src/components/features/SplitFeature.tsx:66 | two ascending lists with the same elements are equal (the sort's result is determined by its input's contents) |
| SplitFeature.ExtractIgnoresClickOrder | src/components/features/SplitFeature.tsx:66-67 | two selections holding the same pages extract the same page list, whatever the click order |
| SplitFeature.ExtractOrderExample | src/components/features/SplitFeature.tsx:66 | pages a < b < c clicked as b, a, c are extracted as a, b, c |
| SplitFeature.ExtractPages | src/components/features/SplitFeature.tsx:66-68 | the output holds the selected pages in ascending page order, one per selected page; a page past the document fails |
| SplitFeature.ClickExtract | src/components/features/SplitFeature.tsx:58-85 | nothing happens without a file or selection or while busy; a delivery happens exactly when the file loads, every selected page exists, and (for the workspace) the store accepts; it is named extracted.pdf, goes where the button says, and holds the extracted pages; the flag ends down and file, selection, count and loading flag are unchanged; a download, or a run that delivers nothing, leaves the workspace alone; a workspace save puts the artifact in the store as a fresh record under the new UUID; a run that delivers nothing reports an error |
| SplitFeature.EntryNamesDistinct | src/components/features/SplitFeature.tsx:100 | different pages get different archive entry names |
| SplitFeature.SplitEntries | src/components/features/SplitFeature.tsx:95-101 | one entry per page in page order, entry i named for page i+1 and holding just page i |
| SplitFeature.SplitThenMerge | src/components/features/SplitFeature.tsx:95-101 | merging the split entries in archive order gives back the document |
| SplitFeature.ClickSplitAll | src/components/features/SplitFeature.tsx:87-118 | nothing happens without a file or while busy; a delivery happens exactly when the file loads and (for the workspace) the store accepts, and it is split-pages.zip holding the split entries; the flag ends down and file, selection, count and loading flag are unchanged; a download, or a run that delivers nothing, leaves the workspace alone; a workspace save puts the archive in the store as a fresh record under the new UUID; a run that delivers nothing reports an error |
| MergeFeature.Files | src/components/features/MergeFeature.tsx:109 | the files in list order |
| MergeFeature.NewItems | src/components/features/MergeFeature.tsx:82-85 | each new file paired with its drawn id, in order |
| MergeFeature.HandleUpload | src/components/features/MergeFeature.tsx:81-87 | the existing list is kept as a prefix and the new files follow in order with their ids |
| MergeFeature.AppendKeepsUniqueIds | src/components/features/MergeFeature.tsx:86 | appending a unique-id list with unused ids keeps ids unique and unites the id sets |
| MergeFeature.UploadKeepsUniqueIds | src/components/features/MergeFeature.tsx:81-87 | fresh distinct ids keep the list's ids unique and add exactly the new ids |
| MergeFeature.HandleRemove | src/components/features/MergeFeature.tsx:89-91 | no entry has the id; every entry with another id remains, as often as before, and nothing else is added; an absent id changes nothing |
| MergeFeature.HandleDragEnd | src/components/features/MergeFeature.tsx:93-103 | a permutation of the list; no target or a self-drop changes nothing |
| MergeFeature.ClearAll | src/components/features/MergeFeature.tsx:169 | the list is empty; the merging flag is unchanged |
| MergeFeature.ClickMerge | src/components/features/MergeFeature.tsx:105-132 | nothing happens with fewer than two files or while merging; a delivery happens exactly when every file loads and (for the workspace) the store accepts, and it is merged.pdf holding the merge in list order; otherwise the reported error is that of the first file that fails to load; the flag ends down; a download, or a run that delivers nothing, leaves the workspace alone; a workspace save puts the merge in the store as a fresh record under the new UUID; a run that delivers nothing reports an error |
| MergeFeature.FilesSplit | src/components/features/MergeFeature.tsx:89-91 | the file list around position k, with and without that file |
| MergeFeature.MergeThree | src/lib/pdf-utils.ts:6-11 | merging before + one + after concatenates their pages; dropping `one` drops exactly its pages |
| MergeFeature.RemoveDropsItsPages | src/components/features/MergeFeature.tsx:89-91 | removing the file at position k removes exactly its pages from the merge, the rest keep their order |
| MergeFeature.DragSwapsMergeOrder | src/components/features/MergeFeature.tsx:93-103 | dragging the first of two files onto the second swaps them, and the merge then puts the second file's pages first |
| Busy.OnPress | src/components/features/ReorderFeature.tsx:267-268 | an enabled click raises the flag and starts one body; a disabled button ignores the click; at most one body stays in flight |
| Busy.OnSettle | src/components/features/ReorderFeature.tsx:195-200 | a settling body lowers the flag; success delivers its artifact, failure delivers nothing |
| Busy.RunKeepsOneInFlight | src/components/features/MergeFeature.tsx:201-212 | over any clicks and settlements, at most one body is in flight, deliveries never exceed settlements, and none are lost |
| Busy.DoubleClickDeliversOnce | src/components/features/SplitFeature.tsx:240-257 | two quick clicks deliver exactly one artifact and leave the flag down |
| Busy.FailureReleasesFlag | src/components/features/SplitFeature.tsx:79-84 | an accepted click that fails leaves the flag down and delivers nothing |
| Delivery.Deliver | src/components/features/SplitFeature.tsx:72-78 | a download leaves the workspace unchanged; a workspace save puts a fresh record under the new UUID whose content is the artifact; a rejected write fails with a storage error |
| Decimal.ParseNatToString | src/components/features/SplitFeature.tsx:100 | the decimal rendering of a page number reads back as that number |
| Decimal.NatToStringInjective | src/components/features/SplitFeature.tsx:100 | different numbers render differently |
| Storage.Save | src/lib/storage.ts:38-51 | the record carries the given id, name, time and content, the input's byte size and type (for a byte array, with the corrected metadata of the Findings row); it is stored under its id and returned; every other record is unchanged; a fresh id grows the store by one; keys stay equal to ids |
| Storage.SaveRecordsByteArrayMeta | src/lib/storage.ts:44-47 | saving a byte array records its length and the PDF type |
| Storage.RecordAsWritten | src/lib/storage.ts:41-48 | the record the code builds: given id, name, time and content; type and size present exactly for File and Blob arguments |
| Storage.SaveAgreesWithCode | src/lib/storage.ts:41-48 | the record `Save` writes agrees with the code's on id, name, time and content, and on type and size exactly when the argument is not a byte array |
| Storage.RecordedMetaAsWritten | src/lib/storage.ts:44-45 | as written, the type and size are present exactly for File and Blob arguments |
| Storage.ByteArraySaveLosesMeta | src/lib/storage.ts:44-45 | as written, a byte-array save records neither type nor size |
| Storage.GetContent | src/lib/storage.ts:66-70 | content is returned exactly for a stored id, and it is that record's content |
| Storage.Delete | src/lib/storage.ts:72-75 | the id is gone, nothing else changes, an absent id is a no-op, the store shrinks by one otherwise |
| Storage.GetAfterSave | src/lib/storage.ts:38-70 | getting a just-saved id returns the saved content |
| Storage.SaveFrame | src/lib/storage.ts:49 | a save leaves every other id's content as it was |
| Storage.GetAfterDelete | src/lib/storage.ts:66-75 | after a delete the id yields nothing, other ids are unaffected, and deleting twice equals deleting once |
| Storage.DeleteUndoesSave | src/lib/storage.ts:38-75 | saving under a fresh id then deleting it restores the store |
| Storage.ListFiles | src/lib/storage.ts:53-64 | one content-free entry per record, every record listed, newest first, equal times by larger id first |
| Storage.ListingNewestFirst | src/lib/storage.ts:55-63 | creation times never increase along the listing |
| Storage.ListingDistinct | src/lib/storage.ts:53-64 | no record is listed twice |
| Storage.ListingLength | src/lib/storage.ts:53-64 | the listing has as many entries as the store has records |
| Storage.StrictlyNewestListedFirst | src/lib/storage.ts:63 | a record strictly newer than all others is listed first |
| Storage.ListAfterSave | src/lib/storage.ts:38-64 | after a save under a fresh id, the listing grows by one, holds one entry with that id, name and time, and lists it first when it is newer than everything stored |
| Lexicographic.LessTotal | src/lib/storage.ts:55 | distinct keys are ordered one way or the other (the key tie-break is a total order) |
| Lexicographic.LessTransitive | src/lib/storage.ts:55 | the key order is transitive |

## Left out

- Rendering is not modelled: JSX, styling, toasts, console logging, thumbnails (`renderPageToDataURL`), and the object-URL and anchor mechanics of a download. A download is a `Delivery` value.
- pdf.js page counting is not modelled; the count and whether every thumbnail rendered are parameters of the upload handlers.
- pdf-lib internals are not modelled. A page is an abstract content id plus its rotation angle. `file.arrayBuffer()` plus `PDFDocument.load` is the file's `parsed` field. `save()` is treated as total, and its byte length is a parameter.
- JSZip is not modelled. The archive is its list of named entries, and `generateAsync` is treated as total.
- IndexedDB behaviour is not modelled: asynchrony, transactions, `openDB` and its upgrade, and failing reads or deletes. A rejected `put` is the `storeAccepts` parameter.
- Storage.Save: for a byte-array argument records its length and `application/pdf`, where storage.ts lines 44-45 store `undefined` for both (the Findings row). Storage.RecordAsWritten is the code's record, and every workspace save of the extract and merge screens uses the corrected one.
- Storage.Save: keeps the content as given. The re-wrapping of non-`File` content in a new PDF-typed Blob (storage.ts line 47) is not modelled.
- Randomness and time are parameters: `Math.random()` ids, `crypto.randomUUID()` and `Date.now()`. Unique ids are a precondition wherever a property needs them, since random ids do not guarantee uniqueness.
- React state updates take effect at once. Interleavings between different screens are not modelled. Within one screen, the in-flight flag is modelled by `Busy`.
- Busy.OnPress: the handlers themselves do not check the in-flight flag. A second run is kept out only by the buttons' `disabled` attribute, and every click function takes that as its guard.
- Sortable.DragEnd: on an empty list it returns the list unchanged. No drop can be reported there, so `arrayMove` on an empty list is never reached.
- Lexicographic.Less: compares characters where JavaScript compares UTF-16 code units. The two agree on the ASCII ids used here (UUIDs).
- ReorderFeature.Organize: sets each page's angle to its own angle plus the tile's rotation, without reducing modulo 360, as the code does. The only check on the angle is the multiple-of-90 test of pdf-lib's `setRotation`. Other pdf-lib errors are not modelled.
- SplitFeature.EntryName: follows the code's `page - N.pdf`, with spaces around the dash.
- The split handler copies pages from the document it loads at click time, not from the stored page count. The model does the same.
- The rest of the application is not part of this model: the compress screen, the workspace screen and its file list and picker, the layout, the theme, and `pdf-render`. The size formatting in MB is also left out.

## Findings

| source | as written | input that shows it | evidently intended | confidence | as-written member | corrected member |
|---|---|---|---|---|---|---|
| src/lib/storage.ts:44-45 | the stored record's `type` and `size` are read from the argument's `type` and `size` properties | the extract and merge screens pass pdf-lib's `Uint8Array` output (`saveFileToWorkspace(pdfBytes, 'extracted.pdf')`). A typed array has neither property, so both are stored as `undefined` | record the byte length and `application/pdf`, the type line 47 gives the content blob | high, not executed | Storage.ByteArraySaveLosesMeta | Storage.SaveRecordsByteArrayMeta |
