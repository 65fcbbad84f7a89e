/** The merge screen: a drag-sortable list of uploaded files and buttons that
    merge them, in list order, into one document. */
module MergeFeature {
  import opened Wrappers
  import opened Pdf
  import opened PdfUtils
  import opened Sortable
  import opened Busy
  import opened Delivery
  import opened Storage

  type FileItem = Keyed<PdfFile>

  datatype State = State(files: seq<FileItem>, merging: bool)

  const OutputName := "merged.pdf"

  /** The file list as handed to `mergePDFs`. */
  function Files(items: seq<FileItem>): (r: seq<PdfFile>)
    ensures |r| == |items| && forall i :: 0 <= i < |r| ==> r[i] == items[i].val
  {
    seq(|items|, i requires 0 <= i < |items| => items[i].val)
  }

  /** The entries an upload adds: each new file with the random id drawn
      for it. */
  function NewItems(newFiles: seq<PdfFile>, ids: seq<string>): (r: seq<FileItem>)
    requires |ids| == |newFiles|
    ensures |r| == |newFiles|
    ensures forall k :: 0 <= k < |r| ==> r[k] == Keyed(ids[k], newFiles[k])
  {
    seq(|newFiles|, k requires 0 <= k < |newFiles| => Keyed(ids[k], newFiles[k]))
  }

  /** `handleUpload(newFiles)`: the new entries go after the existing ones. */
  function HandleUpload(s: State, newFiles: seq<PdfFile>, ids: seq<string>): (r: State)
    requires |ids| == |newFiles|
    ensures |r.files| == |s.files| + |newFiles|
    ensures r.files[..|s.files|] == s.files
    ensures forall k :: 0 <= k < |newFiles| ==> r.files[|s.files| + k] == Keyed(ids[k], newFiles[k])
    ensures r.merging == s.merging
  {
    s.(files := s.files + NewItems(newFiles, ids))
  }

  /** Appending a list whose ids are unique and not yet used keeps the ids
      unique, and the ids are the union. */
  lemma {:induction false} AppendKeepsUniqueIds<T>(xs: seq<Keyed<T>>, ys: seq<Keyed<T>>)
    requires UniqueIds(xs) && UniqueIds(ys) && Ids(xs) !! Ids(ys)
    ensures UniqueIds(xs + ys)
    ensures Ids(xs + ys) == Ids(xs) + Ids(ys)
  {
    var r := xs + ys;
    var n := |xs|;
    forall i, j | 0 <= i < j < |r| ensures r[i].id != r[j].id {
      if j >= n && i < n {
        assert r[i].id in Ids(xs);
        assert r[j] == ys[j - n] && r[j].id in Ids(ys);
      } else if j >= n {
        assert r[i] == ys[i - n] && r[j] == ys[j - n];
      }
    }
    forall x | x in Ids(r) ensures x in Ids(xs) + Ids(ys) {
      var i :| 0 <= i < |r| && r[i].id == x;
      if i >= n {
        assert r[i] == ys[i - n];
      }
    }
    forall x | x in Ids(xs) + Ids(ys) ensures x in Ids(r) {
      if x in Ids(xs) {
        var i :| 0 <= i < n && xs[i].id == x;
        assert r[i] == xs[i];
      } else {
        var i :| 0 <= i < |ys| && ys[i].id == x;
        assert r[n + i] == ys[i];
      }
    }
  }

  /** Fresh, distinct ids keep the list's ids unique, and the list's ids
      grow by exactly the new ones. */
  lemma {:induction false} UploadKeepsUniqueIds(s: State, newFiles: seq<PdfFile>, ids: seq<string>)
    requires |ids| == |newFiles| && UniqueIds(s.files)
    requires forall i, j :: 0 <= i < j < |ids| ==> ids[i] != ids[j]
    requires forall k :: 0 <= k < |ids| ==> ids[k] !in Ids(s.files)
    ensures UniqueIds(HandleUpload(s, newFiles, ids).files)
    ensures Ids(HandleUpload(s, newFiles, ids).files) == Ids(s.files) + set k | 0 <= k < |ids| :: ids[k]
  {
    var added := NewItems(newFiles, ids);
    assert Ids(added) == set k | 0 <= k < |ids| :: ids[k] by {
      forall x | x in set k | 0 <= k < |ids| :: ids[k] ensures x in Ids(added) {
        var k :| 0 <= k < |ids| && ids[k] == x;
        assert added[k].id == x;
      }
    }
    AppendKeepsUniqueIds(s.files, added);
  }

  /** `handleRemove(id)`: the files with that id go, every other file stays
      (as often as it was there). */
  function HandleRemove(s: State, id: string): (r: State)
    ensures forall k :: 0 <= k < |r.files| ==> r.files[k].id != id
    ensures multiset(r.files) <= multiset(s.files)
    ensures forall k :: 0 <= k < |s.files| && s.files[k].id != id ==> multiset(r.files)[s.files[k]] == multiset(s.files)[s.files[k]]
    ensures !HasId(s.files, id) ==> r == s
    ensures r.merging == s.merging
  {
    assert !HasId(s.files, id) ==> RemoveById(s.files, id) == s.files by {
      if !HasId(s.files, id) {
        RemoveByIdAbsent(s.files, id);
      }
    }
    s.(files := RemoveById(s.files, id))
  }

  /** `handleDragEnd`. */
  function HandleDragEnd(s: State, active: string, over: Option<string>): (r: State)
    ensures multiset(r.files) == multiset(s.files)
    ensures over.None? || over.value == active ==> r == s
    ensures r.merging == s.merging
  {
    s.(files := DragEnd(s.files, active, over))
  }

  /** The "clear all" button. */
  function ClearAll(s: State): (r: State)
    ensures r.files == [] && r.merging == s.merging
  {
    s.(files := [])
  }

  /** Both merge buttons are enabled while not merging and the list holds at
      least two files. */
  predicate MergeEnabled(s: State) {
    Enabled(s.merging, |s.files| >= 2)
  }

  /** A click on a merge button (`toWorkspace` tells which). With fewer than
      two files nothing happens. Otherwise the files are merged in list order
      and the result is delivered as `merged.pdf`; the first file that fails
      to load is the reported error. */
  function ClickMerge(s: State, ws: Workspace, env: Env, toWorkspace: bool): (r: Outcome<State>)
    ensures r.delivered.None? ==> r.workspace == ws
    ensures r.delivered.Some? && toWorkspace ==>
      && r.workspace == Save(ws, AsInput(r.delivered.value.artifact, env.byteLength), OutputName, env.freshId, env.now).0
      && GetContent(r.workspace, env.freshId) == Some(r.delivered.value.artifact)
    ensures MergeEnabled(s) && r.delivered.None? ==> r.failure.Some?
    ensures !MergeEnabled(s) ==> r == Outcome(s, ws, None, None)
    ensures r.state.files == s.files
    ensures !r.state.merging || r.state == s
    ensures !toWorkspace ==> r.workspace == ws
    ensures r.delivered.Some? ==> r.failure.None?
    ensures r.delivered.Some? <==> MergeEnabled(s) && AllParsed(Files(s.files)) && (toWorkspace ==> env.storeAccepts)
    ensures r.delivered.Some? ==>
      r.delivered.value == Delivery(if toWorkspace then Workspace else Download, OutputName,
                                    PdfBytes(MergePdfs(Files(s.files)).value))
    ensures MergeEnabled(s) && !AllParsed(Files(s.files)) ==>
      exists i :: 0 <= i < |s.files| && s.files[i].val.parsed.Failure?
                  && r.failure == Some(s.files[i].val.parsed.error) && AllParsed(Files(s.files)[..i])
  {
    if !MergeEnabled(s) || |s.files| < 2 then Outcome(s, ws, None, None)
    else
      var done := s.(merging := false);
      match MergePdfs(Files(s.files))
      case Failure(e) => Outcome(done, ws, None, Some(e))
      case Success(out) =>
        match Deliver(ws, env, toWorkspace, OutputName, PdfBytes(out))
        case Failure(e) => Outcome(done, ws, None, Some(e))
        case Success((ws', d)) => Outcome(done, ws', Some(d), None)
  }

  /** Removing the file at position `k` (ids unique) removes exactly its
      pages from the merge: what was before it stays before, what was after
      it stays after. */
  lemma {:induction false} RemoveDropsItsPages(items: seq<FileItem>, k: nat)
    requires UniqueIds(items) && k < |items| && AllParsed(Files(items))
    ensures
      var before := Files(items[..k]);
      var after := Files(items[k + 1..]);
      && AllParsed(before) && AllParsed(after)
      && MergePdfs(Files(items)) == Success(MergePdfs(before).value + items[k].val.parsed.value + MergePdfs(after).value)
      && MergePdfs(Files(RemoveById(items, items[k].id))) == Success(MergePdfs(before).value + MergePdfs(after).value)
  {
    RemoveByIdAt(items, k);
    FilesSplit(items, k);
    var before := Files(items[..k]);
    var after := Files(items[k + 1..]);
    MergeThree(before, items[k].val, after);
  }

  /** The file list around position `k`, with and without that file. */
  lemma {:induction false} FilesSplit(items: seq<FileItem>, k: nat)
    requires k < |items|
    ensures Files(items) == Files(items[..k]) + [items[k].val] + Files(items[k + 1..])
    ensures Files(RemoveAt(items, k)) == Files(items[..k]) + Files(items[k + 1..])
  {
    var whole := Files(items[..k]) + [items[k].val] + Files(items[k + 1..]);
    forall i | 0 <= i < |items| ensures Files(items)[i] == whole[i] {
      if i < k {
        assert whole[i] == Files(items[..k])[i];
      } else if i > k {
        assert whole[i] == Files(items[k + 1..])[i - k - 1];
      }
    }
    var rest := RemoveAt(items, k);
    var parts := Files(items[..k]) + Files(items[k + 1..]);
    forall i | 0 <= i < |rest| ensures Files(rest)[i] == parts[i] {
      if i < k {
        assert rest[i] == items[i];
        assert parts[i] == Files(items[..k])[i];
      } else {
        assert rest[i] == items[i + 1];
        assert parts[i] == Files(items[k + 1..])[i - k];
      }
    }
  }

  lemma {:induction false} MergeThree(before: seq<PdfFile>, one: PdfFile, after: seq<PdfFile>)
    requires AllParsed(before) && one.parsed.Success? && AllParsed(after)
    ensures AllParsed(before + [one] + after) && AllParsed(before + after)
    ensures MergePdfs(before + [one] + after).value ==
      MergePdfs(before).value + one.parsed.value + MergePdfs(after).value
    ensures MergePdfs(before + after).value == MergePdfs(before).value + MergePdfs(after).value
  {
    MergeAppend(before, [one]);
    MergeSingle(one);
    MergeAppend(before + [one], after);
    MergeAppend(before, after);
  }

  /** Dragging file `a` onto file `b` of a two-file list swaps the order in
      which their pages are merged. */
  lemma {:induction false} DragSwapsMergeOrder(a: FileItem, b: FileItem)
    requires a.id != b.id && a.val.parsed.Success? && b.val.parsed.Success?
    ensures DragEnd([a, b], a.id, Some(b.id)) == [b, a]
    ensures MergePdfs(Files([b, a])) == Success(b.val.parsed.value + a.val.parsed.value)
  {
    assert FindIndex([a, b], a.id) == 0;
    assert [a, b][1..] == [b];
    assert FindIndex([b], b.id) == 0;
    assert FindIndex([a, b], b.id) == 1;
    var r := DragEnd([a, b], a.id, Some(b.id));
    assert RemoveAt(r, 1) == RemoveAt([a, b], 0);
    assert r == [b, a];
    MergeAppend([b.val], [a.val]);
    MergeSingle(b.val);
    MergeSingle(a.val);
    assert Files([b, a]) == [b.val] + [a.val];
  }
}
