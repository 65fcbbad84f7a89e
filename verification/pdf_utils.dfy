/** `mergePDFs`: one document holding every page of every input file, file
    after file, each file's pages in their own order. */
module PdfUtils {
  import opened Wrappers
  import opened Pdf

  /** Every input parsed. */
  predicate AllParsed(files: seq<PdfFile>) {
    forall i :: 0 <= i < |files| ==> files[i].parsed.Success?
  }

  /** Total page count of the parsed inputs. */
  function PageTotal(files: seq<PdfFile>): nat
    requires AllParsed(files)
  {
    if |files| == 0 then 0 else |files[0].parsed.value| + PageTotal(files[1..])
  }

  /** Where the pages of input `j` start in the merged document. */
  function Offset(files: seq<PdfFile>, j: nat): nat
    requires AllParsed(files) && j <= |files|
  {
    if j == 0 then 0 else Offset(files, j - 1) + |files[j - 1].parsed.value|
  }

  /** The loop of `mergePDFs`: load each file in list order and append copies
      of all its pages; the first file that fails to load aborts the merge
      with its error. An empty list yields the empty document. */
  function MergePdfs(files: seq<PdfFile>): (r: Result<Doc, PdfError>)
    ensures r.Success? <==> AllParsed(files)
    ensures r.Success? ==> |r.value| == PageTotal(files)
    ensures r.Failure? ==>
      exists i :: 0 <= i < |files| && files[i].parsed == Failure(r.error) && AllParsed(files[..i])
  {
    if |files| == 0 then Success([])
    else
      match files[0].parsed
      case Failure(e) =>
        assert AllParsed(files[..0]);
        Failure(e)
      case Success(doc) =>
        match CopyPages(doc, PageIndices(|doc|))
        case Failure(e) => Failure(e)
        case Success(copied) =>
          match MergePdfs(files[1..])
          case Failure(e) =>
            var i :| 0 <= i < |files[1..]| && files[1..][i].parsed == Failure(e) && AllParsed(files[1..][..i]);
            assert files[1..][..i] == files[1..i + 1];
            assert AllParsed(files[..i + 1]);
            Failure(e)
          case Success(rest) => Success(copied + rest)
  }

  lemma {:induction false} OffsetShift(files: seq<PdfFile>, j: nat)
    requires |files| > 0 && AllParsed(files) && j < |files|
    ensures Offset(files, j + 1) == |files[0].parsed.value| + Offset(files[1..], j)
  {
    if j > 0 {
      OffsetShift(files, j - 1);
    }
  }

  /** The pages of the parsed inputs, file after file. */
  function Pages(files: seq<PdfFile>): Doc
    requires AllParsed(files)
  {
    if |files| == 0 then [] else files[0].parsed.value + Pages(files[1..])
  }

  /** On parsed inputs the merge yields exactly their pages, file after file. */
  lemma {:induction false} MergeIsPages(files: seq<PdfFile>)
    requires AllParsed(files)
    ensures MergePdfs(files) == Success(Pages(files))
  {
    if |files| > 0 {
      MergeUnfold(files);
      MergeIsPages(files[1..]);
    }
  }

  lemma {:induction false} PagesPlacement(files: seq<PdfFile>, j: nat, k: nat)
    requires AllParsed(files) && j < |files| && k < |files[j].parsed.value|
    ensures Offset(files, j) + k < |Pages(files)|
    ensures Pages(files)[Offset(files, j) + k] == files[j].parsed.value[k]
  {
    var doc := files[0].parsed.value;
    var tail := files[1..];
    if j > 0 {
      assert tail[j - 1] == files[j];
      PagesPlacement(tail, j - 1, k);
      OffsetShift(files, j - 1);
      var at := Offset(tail, j - 1) + k;
      assert (doc + Pages(tail))[|doc| + at] == Pages(tail)[at];
    }
  }

  /** Page `k` of input `j` is page `Offset(files, j) + k` of the merge:
      every input contributes all its pages, in its own order, after the
      pages of the inputs before it. */
  lemma {:induction false} MergePlacement(files: seq<PdfFile>, j: nat, k: nat)
    requires AllParsed(files) && j < |files| && k < |files[j].parsed.value|
    ensures MergePdfs(files).Success?
    ensures Offset(files, j) + k < |MergePdfs(files).value|
    ensures MergePdfs(files).value[Offset(files, j) + k] == files[j].parsed.value[k]
  {
    MergeIsPages(files);
    PagesPlacement(files, j, k);
  }

  /** One step of the merge loop on parsed inputs. */
  lemma {:induction false} MergeUnfold(files: seq<PdfFile>)
    requires |files| > 0 && AllParsed(files)
    ensures AllParsed(files[1..])
    ensures MergePdfs(files) == Success(files[0].parsed.value + MergePdfs(files[1..]).value)
  {
    CopyAllPages(files[0].parsed.value);
  }

  lemma {:induction false} AllParsedAppend(a: seq<PdfFile>, b: seq<PdfFile>)
    requires AllParsed(a) && AllParsed(b)
    ensures AllParsed(a + b)
  {
    forall i | 0 <= i < |a + b| ensures (a + b)[i].parsed.Success? {
      if i >= |a| {
        assert (a + b)[i] == b[i - |a|];
      }
    }
  }

  /** Merging a list is merging its two halves and concatenating: the output
      follows list order, whatever the split point. */
  lemma {:induction false} MergeAppend(a: seq<PdfFile>, b: seq<PdfFile>)
    requires AllParsed(a) && AllParsed(b)
    ensures AllParsed(a + b)
    ensures MergePdfs(a + b).Success?
    ensures MergePdfs(a + b).value == MergePdfs(a).value + MergePdfs(b).value
  {
    AllParsedAppend(a, b);
    var ab := a + b;
    if |a| == 0 {
      assert ab == b;
    } else {
      var tail := a[1..];
      assert ab[1..] == tail + b;
      assert ab[0] == a[0];
      AllParsedAppend(tail, b);
      MergeAppend(tail, b);
      MergeUnfold(ab);
      MergeUnfold(a);
    }
  }

  /** Merging a single file reproduces that file's pages. */
  lemma {:induction false} MergeSingle(f: PdfFile)
    requires f.parsed.Success?
    ensures MergePdfs([f]) == Success(f.parsed.value)
  {
    CopyAllPages(f.parsed.value);
    assert [f][1..] == [];
    assert MergePdfs([f][1..]) == Success([]);
    assert f.parsed.value + [] == f.parsed.value;
  }
}
