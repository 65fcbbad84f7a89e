/** The split screen: pick pages by clicking thumbnails and extract them into
    one document, or split every page into its own document inside a zip
    archive. */
module SplitFeature {
  import opened Wrappers
  import opened Pdf
  import opened PdfUtils
  import opened Decimal
  import opened Busy
  import opened Delivery
  import opened Storage

  /** The selection is a JavaScript `Set<number>`: iteration follows
      insertion order, so it is kept as a sequence without repeats, in the
      order the pages were clicked. */
  datatype State = State(file: Option<PdfFile>, pageCount: nat, selected: seq<nat>, loading: bool, processing: bool)

  const ExtractName := "extracted.pdf"
  const ArchiveName := "split-pages.zip"

  predicate NoDup(xs: seq<nat>) {
    forall i, j :: 0 <= i < j < |xs| ==> xs[i] != xs[j]
  }

  // ---------------------------------------------------------------------
  // Loading
  // ---------------------------------------------------------------------

  /** `handleUpload(files)`: an empty drop does nothing. Otherwise the first
      file becomes current and the selection is cleared at once; `counted`
      is the page count pdf.js reports (stored as soon as it is known) and
      `rendered` whether every thumbnail then rendered. Either failure drops
      the file again, keeping the selection empty. */
  function HandleUpload(s: State, files: seq<PdfFile>, counted: Result<nat, PdfError>, rendered: bool): (r: State)
    ensures |files| == 0 ==> r == s
    ensures |files| > 0 ==> r.selected == [] && !r.loading && r.processing == s.processing
    ensures |files| > 0 ==> (r.file.Some? <==> counted.Success? && rendered)
    ensures |files| > 0 && r.file.Some? ==> r.file == Some(files[0]) && r.pageCount == counted.value
    ensures |files| > 0 && counted.Failure? ==> r.pageCount == s.pageCount
    ensures |files| > 0 && counted.Success? ==> r.pageCount == counted.value
  {
    if |files| == 0 then s
    else
      match counted
      case Failure(_) => State(None, s.pageCount, [], false, s.processing)
      case Success(n) => State(if rendered then Some(files[0]) else None, n, [], false, s.processing)
  }

  /** The "change file" button: forget the file and the selection. */
  function ChangeFile(s: State): (r: State)
    ensures r.file == None && r.selected == []
    ensures r.pageCount == s.pageCount && r.processing == s.processing && r.loading == s.loading
  {
    s.(file := None, selected := [])
  }

  // ---------------------------------------------------------------------
  // Selection
  // ---------------------------------------------------------------------

  /** `Set.prototype.delete`: drop the element, keep the others in order. */
  function Without(xs: seq<nat>, x: nat): (r: seq<nat>)
    ensures x !in r
    ensures forall y :: y != x ==> (y in r <==> y in xs)
    ensures NoDup(xs) ==> NoDup(r)
    ensures x !in xs ==> r == xs
  {
    if |xs| == 0 then []
    else if xs[0] == x then Without(xs[1..], x)
    else
      var rest := Without(xs[1..], x);
      HeadNotInTail(xs);
      ConsNoDup(xs[0], rest);
      [xs[0]] + rest
  }

  lemma {:induction false} HeadNotInTail(xs: seq<nat>)
    requires |xs| > 0
    ensures NoDup(xs) ==> xs[0] !in xs[1..]
  {
    if NoDup(xs) {
      forall k | 0 <= k < |xs| - 1 ensures xs[1..][k] != xs[0] {
        assert xs[1..][k] == xs[k + 1];
      }
    }
  }

  lemma {:induction false} ConsNoDup(y: nat, rest: seq<nat>)
    ensures NoDup(rest) && y !in rest ==> NoDup([y] + rest)
  {
    if NoDup(rest) && y !in rest {
      var r := [y] + rest;
      forall i, j | 0 <= i < j < |r| ensures r[i] != r[j] {
        if i == 0 {
          assert r[j] == rest[j - 1];
        } else {
          assert r[i] == rest[i - 1] && r[j] == rest[j - 1];
        }
      }
    }
  }

  /** `togglePageSelection(i)`: a selected page is deselected, any other
      page is added after the ones already selected. */
  function Toggle(sel: seq<nat>, i: nat): (r: seq<nat>)
    ensures i in r <==> i !in sel
    ensures forall y :: y != i ==> (y in r <==> y in sel)
    ensures NoDup(sel) ==> NoDup(r)
  {
    if i in sel then Without(sel, i) else sel + [i]
  }

  /** Toggling a page twice restores the selection as a set. */
  lemma {:induction false} ToggleTwice(sel: seq<nat>, i: nat)
    ensures forall y :: y in Toggle(Toggle(sel, i), i) <==> y in sel
  {
  }

  /** Selecting and then deselecting a page that was not selected restores
      the selection exactly, order included. */
  lemma {:induction false} ToggleTwiceFresh(sel: seq<nat>, i: nat)
    requires i !in sel
    ensures Toggle(Toggle(sel, i), i) == sel
  {
    WithoutLast(sel, i);
  }

  lemma {:induction false} WithoutLast(xs: seq<nat>, x: nat)
    requires x !in xs
    ensures Without(xs + [x], x) == xs
  {
    if |xs| > 0 {
      assert (xs + [x])[1..] == xs[1..] + [x];
      WithoutLast(xs[1..], x);
    } else {
      assert [x][1..] == [];
    }
  }

  // ---------------------------------------------------------------------
  // Ascending order
  // ---------------------------------------------------------------------

  predicate Ascending(xs: seq<nat>) {
    forall i, j :: 0 <= i < j < |xs| ==> xs[i] <= xs[j]
  }

  function Insert(x: nat, xs: seq<nat>): seq<nat> {
    if |xs| == 0 then [x]
    else if x <= xs[0] then [x] + xs
    else [xs[0]] + Insert(x, xs[1..])
  }

  /** Inserting into an ascending sequence keeps it ascending and adds
      exactly the one number. */
  lemma {:induction false} InsertFacts(x: nat, xs: seq<nat>)
    requires Ascending(xs)
    ensures Ascending(Insert(x, xs))
    ensures multiset(Insert(x, xs)) == multiset(xs) + multiset{x}
  {
    if |xs| > 0 {
      HeadIsMin(xs);
      if x <= xs[0] {
        ConsAscending(x, xs);
      } else {
        InsertFacts(x, xs[1..]);
        InsertBehindHead(x, xs, Insert(x, xs[1..]));
      }
    }
  }

  /** The step of `Insert` that keeps the head and inserts further on. */
  lemma {:induction false} InsertBehindHead(x: nat, xs: seq<nat>, rest: seq<nat>)
    requires |xs| > 0 && Ascending(xs) && xs[0] < x
    requires Ascending(rest) && multiset(rest) == multiset(xs[1..]) + multiset{x}
    ensures Ascending([xs[0]] + rest)
    ensures multiset([xs[0]] + rest) == multiset(xs) + multiset{x}
  {
    HeadIsMin(xs);
    assert xs == [xs[0]] + xs[1..];
    forall k | 0 <= k < |rest| ensures xs[0] <= rest[k] {
      assert rest[k] in multiset(rest);
    }
    ConsAscending(xs[0], rest);
  }

  /** The first number of an ascending sequence is its least. */
  lemma {:induction false} HeadIsMin(xs: seq<nat>)
    requires Ascending(xs) && |xs| > 0
    ensures Ascending(xs[1..])
    ensures forall y :: y in multiset(xs) ==> xs[0] <= y
  {
    forall y | y in multiset(xs) ensures xs[0] <= y {
      assert y in xs;
      var k :| 0 <= k < |xs| && xs[k] == y;
    }
  }

  lemma {:induction false} ConsAscending(y: nat, rest: seq<nat>)
    requires Ascending(rest)
    requires forall k :: 0 <= k < |rest| ==> y <= rest[k]
    ensures Ascending([y] + rest)
  {
    var r := [y] + rest;
    forall i, j | 0 <= i < j < |r| ensures r[i] <= r[j] {
      assert r[j] == rest[j - 1];
      if i > 0 {
        assert r[i] == rest[i - 1];
      }
    }
  }

  /** `Array.from(set).sort((a, b) => a - b)`: the same numbers in ascending
      order. */
  function SortAscending(xs: seq<nat>): (r: seq<nat>)
    ensures Ascending(r)
    ensures multiset(r) == multiset(xs)
    ensures |r| == |xs|
  {
    if |xs| == 0 then []
    else
      var rest := SortAscending(xs[1..]);
      assert xs == [xs[0]] + xs[1..];
      InsertFacts(xs[0], rest);
      Insert(xs[0], rest)
  }

  /** Two ascending sequences holding the same numbers are the same
      sequence. */
  lemma {:induction false} AscendingUnique(a: seq<nat>, b: seq<nat>)
    requires Ascending(a) && Ascending(b) && multiset(a) == multiset(b)
    ensures a == b
  {
    if |a| == 0 {
      assert |multiset(b)| == 0;
    } else {
      assert |b| > 0 by { assert |multiset(b)| == |a|; }
      HeadIsMin(a);
      HeadIsMin(b);
      assert a[0] in multiset(a) && b[0] in multiset(b);
      assert a[0] == b[0];
      assert a == [a[0]] + a[1..];
      assert b == [b[0]] + b[1..];
      assert multiset(a[1..]) == multiset(a) - multiset{a[0]};
      assert multiset(b[1..]) == multiset(b) - multiset{b[0]};
      AscendingUnique(a[1..], b[1..]);
    }
  }

  lemma {:induction false} NoDupCount(xs: seq<nat>, x: nat)
    requires NoDup(xs)
    ensures multiset(xs)[x] == if x in xs then 1 else 0
  {
    if |xs| > 0 {
      assert xs == [xs[0]] + xs[1..];
      NoDupCount(xs[1..], x);
    }
  }

  /** The pages extracted depend only on which pages are selected, not on
      the order they were clicked in. */
  lemma {:induction false} ExtractIgnoresClickOrder(a: seq<nat>, b: seq<nat>)
    requires NoDup(a) && NoDup(b)
    requires forall x :: x in a <==> x in b
    ensures SortAscending(a) == SortAscending(b)
  {
    forall x ensures multiset(a)[x] == multiset(b)[x] {
      NoDupCount(a, x);
      NoDupCount(b, x);
    }
    assert multiset(a) == multiset(b);
    AscendingUnique(SortAscending(a), SortAscending(b));
  }

  /** Clicking pages 3, 1 and 7 selects them in that order... */
  lemma {:induction false} ClickOrderExample()
    ensures Toggle(Toggle(Toggle([], 3), 1), 7) == [3, 1, 7]
  {
    assert Toggle([], 3) == [3];
    assert Toggle([3], 1) == [3, 1];
  }

  /** ...and pages clicked out of order, such as 3, 1, 7, are extracted in
      ascending order. */
  lemma {:induction false} ExtractOrderExample(a: nat, b: nat, c: nat)
    requires a < b < c
    ensures SortAscending([b, a, c]) == [a, b, c]
  {
    var clicked: seq<nat> := [b, a, c];
    var expected: seq<nat> := [a, b, c];
    assert NoDup(clicked) && NoDup(expected) && Ascending(expected);
    assert forall x :: x in clicked <==> x in expected;
    ExtractIgnoresClickOrder(clicked, expected);
    SortAscendingFixes(expected);
  }

  /** An ascending selection is extracted in its own order. */
  lemma {:induction false} SortAscendingFixes(xs: seq<nat>)
    requires Ascending(xs)
    ensures SortAscending(xs) == xs
  {
    AscendingUnique(SortAscending(xs), xs);
  }

  /** Sorting the selection keeps exactly the selected pages. */
  lemma {:induction false} SortedSelection(sel: seq<nat>)
    ensures |SortAscending(sel)| == |sel|
    ensures forall i :: 0 <= i < |sel| ==> sel[i] in SortAscending(sel)
    ensures forall i :: 0 <= i < |sel| ==> SortAscending(sel)[i] in sel
  {
    var pages := SortAscending(sel);
    assert |multiset(pages)| == |multiset(sel)|;
    forall i | 0 <= i < |sel| ensures sel[i] in pages && pages[i] in sel {
      assert sel[i] in multiset(sel);
      assert pages[i] in multiset(pages);
    }
  }

  // ---------------------------------------------------------------------
  // Extract the selection
  // ---------------------------------------------------------------------

  function AsIndices(xs: seq<nat>): (r: seq<int>)
    ensures |r| == |xs| && forall i :: 0 <= i < |r| ==> r[i] == xs[i]
  {
    seq(|xs|, i requires 0 <= i < |xs| => xs[i] as int)
  }

  /** The page copying of `handleExtractSelected`: the selected pages, in
      ascending page order, as a new document. A page past the document
      fails the copy. */
  function ExtractPages(doc: Doc, selected: seq<nat>): (r: Result<Doc, PdfError>)
    ensures r.Success? <==> forall i :: 0 <= i < |selected| ==> selected[i] < |doc|
    ensures r.Failure? ==> r.error == PageIndexError
    ensures r.Success? ==> |r.value| == |selected|
    ensures r.Success? ==> forall i :: 0 <= i < |selected| ==>
      SortAscending(selected)[i] < |doc| && r.value[i] == doc[SortAscending(selected)[i]]
  {
    var pages := SortAscending(selected);
    SortedSelection(selected);
    SelectionInRange(doc, selected);
    CopyPages(doc, AsIndices(pages))
  }

  lemma {:induction false} SelectionInRange(doc: Doc, sel: seq<nat>)
    ensures IndicesIn(doc, AsIndices(SortAscending(sel))) <==> forall i :: 0 <= i < |sel| ==> sel[i] < |doc|
  {
    SortedSelection(sel);
    var pages := SortAscending(sel);
    if forall i :: 0 <= i < |sel| ==> sel[i] < |doc| {
      forall i | 0 <= i < |pages| ensures pages[i] < |doc| {
        var j :| 0 <= j < |sel| && sel[j] == pages[i];
      }
    }
    if IndicesIn(doc, AsIndices(pages)) {
      forall i | 0 <= i < |sel| ensures sel[i] < |doc| {
        var j :| 0 <= j < |pages| && pages[j] == sel[i];
        assert AsIndices(pages)[j] == pages[j];
      }
    }
  }

  /** The extract and save-to-workspace buttons of the selection. */
  predicate ExtractEnabled(s: State) {
    Enabled(s.processing, |s.selected| > 0)
  }

  /** A click on an extract button (`toWorkspace` tells which). Without a
      file or a selection nothing happens. Otherwise the selected pages are
      copied in ascending page order into a new document, which is delivered
      as `extracted.pdf`; `isProcessing` is lowered afterwards. */
  function ClickExtract(s: State, ws: Workspace, env: Env, toWorkspace: bool): (r: Outcome<State>)
    ensures r.delivered.None? ==> r.workspace == ws
    ensures r.delivered.Some? && toWorkspace ==>
      && r.workspace == Save(ws, AsInput(r.delivered.value.artifact, env.byteLength), ExtractName, env.freshId, env.now).0
      && GetContent(r.workspace, env.freshId) == Some(r.delivered.value.artifact)
    ensures ExtractEnabled(s) && s.file.Some? && r.delivered.None? ==> r.failure.Some?
    ensures !ExtractEnabled(s) || s.file.None? ==> r == Outcome(s, ws, None, None)
    ensures r.state.file == s.file && r.state.selected == s.selected && r.state.pageCount == s.pageCount
    ensures r.state.loading == s.loading
    ensures !r.state.processing || r.state == s
    ensures r.delivered.Some? ==> r.failure.None?
    ensures !toWorkspace ==> r.workspace == ws
    ensures r.delivered.Some? <==>
      && ExtractEnabled(s) && s.file.Some? && s.file.value.parsed.Success?
      && (forall i :: 0 <= i < |s.selected| ==> s.selected[i] < |s.file.value.parsed.value|)
      && (toWorkspace ==> env.storeAccepts)
    ensures r.delivered.Some? ==>
      var doc := s.file.value.parsed.value;
      && r.delivered.value == Delivery(if toWorkspace then Workspace else Download, ExtractName, r.delivered.value.artifact)
      && r.delivered.value.artifact.PdfBytes?
      && r.delivered.value.artifact.doc == ExtractPages(doc, s.selected).value
  {
    if !ExtractEnabled(s) || s.file.None? || |s.selected| == 0 then Outcome(s, ws, None, None)
    else
      var done := s.(processing := false);
      match s.file.value.parsed
      case Failure(e) => Outcome(done, ws, None, Some(e))
      case Success(doc) =>
        match ExtractPages(doc, s.selected)
        case Failure(e) => Outcome(done, ws, None, Some(e))
        case Success(out) =>
          match Deliver(ws, env, toWorkspace, ExtractName, PdfBytes(out))
          case Failure(e) => Outcome(done, ws, None, Some(e))
          case Success((ws', d)) => Outcome(done, ws', Some(d), None)
  }

  // ---------------------------------------------------------------------
  // Split every page
  // ---------------------------------------------------------------------

  const EntryPrefix := "page - "
  const EntrySuffix := ".pdf"

  /** The archive name of page `i` (0-based): the page number counted from
      one, between `page - ` and `.pdf`. */
  function EntryName(i: nat): (r: string)
    ensures |r| == |EntryPrefix| + |NatToString(i + 1)| + |EntrySuffix|
  {
    EntryPrefix + NatToString(i + 1) + EntrySuffix
  }

  /** Different pages get different archive names, so no entry overwrites
      another. */
  lemma {:induction false} EntryNamesDistinct(i: nat, j: nat)
    requires EntryName(i) == EntryName(j)
    ensures i == j
  {
    var a := NatToString(i + 1);
    var b := NatToString(j + 1);
    var n := EntryName(i);
    assert a == n[|EntryPrefix|..|n| - |EntrySuffix|];
    assert b == n[|EntryPrefix|..|n| - |EntrySuffix|];
    NatToStringInjective(i + 1, j + 1);
  }

  /** The loop of `handleSplitAll`: for every page, a one-page document made
      by copying that page, stored under its entry name. */
  function SplitEntries(doc: Doc): (r: seq<ZipEntry>)
    ensures |r| == |doc|
    ensures forall i :: 0 <= i < |r| ==> r[i] == ZipEntry(EntryName(i), [doc[i]])
  {
    seq(|doc|, i requires 0 <= i < |doc| => ZipEntry(EntryName(i), CopyPages(doc, [i]).value))
  }

  /** The entries read back as input files. */
  function EntryFiles(entries: seq<ZipEntry>): (r: seq<PdfFile>)
    ensures |r| == |entries| && AllParsed(r)
    ensures forall i :: 0 <= i < |r| ==> r[i] == PdfFile(entries[i].name, Success(entries[i].doc))
  {
    seq(|entries|, i requires 0 <= i < |entries| => PdfFile(entries[i].name, Success(entries[i].doc)))
  }

  /** Merging the split pages in archive order gives the document back. */
  lemma {:induction false} SplitThenMerge(doc: Doc)
    ensures MergePdfs(EntryFiles(SplitEntries(doc))) == Success(doc)
  {
    var files := EntryFiles(SplitEntries(doc));
    MergeSinglePages(doc, files, |doc|);
    assert files[..|doc|] == files;
    assert doc[..|doc|] == doc;
  }

  /** Merging one-page files whose pages are those of `doc`, in order,
      rebuilds `doc` page by page. */
  lemma {:induction false} MergeSinglePages(doc: Doc, files: seq<PdfFile>, n: nat)
    requires |files| == |doc| && n <= |doc|
    requires forall i :: 0 <= i < |files| ==> files[i].parsed == Success([doc[i]])
    ensures AllParsed(files[..n])
    ensures MergePdfs(files[..n]) == Success(doc[..n])
  {
    if n > 0 {
      MergeSinglePages(doc, files, n - 1);
      var last := files[n - 1];
      assert files[..n] == files[..n - 1] + [last];
      MergeAppend(files[..n - 1], [last]);
      MergeSingle(last);
      assert doc[..n] == doc[..n - 1] + [doc[n - 1]];
    }
  }

  /** The two split buttons (download and save to workspace). */
  predicate SplitEnabled(s: State) {
    Enabled(s.processing, true)
  }

  /** A click on a split button. Without a file nothing happens. Otherwise
      every page of the loaded document becomes its own entry and the archive
      is delivered as `split-pages.zip`. */
  function ClickSplitAll(s: State, ws: Workspace, env: Env, toWorkspace: bool): (r: Outcome<State>)
    ensures r.delivered.None? ==> r.workspace == ws
    ensures r.delivered.Some? && toWorkspace ==>
      && r.workspace == Save(ws, AsInput(r.delivered.value.artifact, env.byteLength), ArchiveName, env.freshId, env.now).0
      && GetContent(r.workspace, env.freshId) == Some(r.delivered.value.artifact)
    ensures SplitEnabled(s) && s.file.Some? && r.delivered.None? ==> r.failure.Some?
    ensures !SplitEnabled(s) || s.file.None? ==> r == Outcome(s, ws, None, None)
    ensures r.state.file == s.file && r.state.selected == s.selected && r.state.pageCount == s.pageCount
    ensures r.state.loading == s.loading
    ensures !r.state.processing || r.state == s
    ensures !toWorkspace ==> r.workspace == ws
    ensures r.delivered.Some? ==> r.failure.None?
    ensures r.delivered.Some? <==>
      SplitEnabled(s) && s.file.Some? && s.file.value.parsed.Success? && (toWorkspace ==> env.storeAccepts)
    ensures r.delivered.Some? ==>
      r.delivered.value == Delivery(if toWorkspace then Workspace else Download, ArchiveName,
                                    ZipArchive(SplitEntries(s.file.value.parsed.value)))
  {
    if !SplitEnabled(s) || s.file.None? then Outcome(s, ws, None, None)
    else
      var done := s.(processing := false);
      match s.file.value.parsed
      case Failure(e) => Outcome(done, ws, None, Some(e))
      case Success(doc) =>
        match Deliver(ws, env, toWorkspace, ArchiveName, ZipArchive(SplitEntries(doc)))
        case Failure(e) => Outcome(done, ws, None, Some(e))
        case Success((ws', d)) => Outcome(done, ws', Some(d), None)
  }
}
