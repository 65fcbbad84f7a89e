/** The workspace store: an IndexedDB object store `files` keyed by each
    record's `id`, with an index `by-date` on `createdAt`. The database is a
    map from id to record; the random UUID and `Date.now()` are parameters. */
module Storage {
  import opened Wrappers
  import opened Lexicographic

  /** The MIME type the content blob of a non-`File` argument is given. */
  const PdfMime := "application/pdf"

  /** What `saveFileToWorkspace` is handed: a `File`, a `Blob`, or — as the
      extract and merge screens pass pdf-lib's output — a byte array, which
      has a length but no `type` or `size` property. */
  datatype Input<C> =
    | FileInput(mime: string, size: nat, content: C)
    | BlobInput(mime: string, size: nat, content: C)
    | ByteArray(length: nat, content: C)

  datatype StoredFile<C> =
    StoredFile(id: string, name: string, mime: string, size: nat, createdAt: int, content: C)

  /** A listing entry: a record without its content. */
  datatype FileMeta = FileMeta(id: string, name: string, mime: string, size: nat, createdAt: int)

  type Store<C> = map<string, StoredFile<C>>

  /** The object store's key path is `id`: every record sits under its own id. */
  predicate KeyPathHolds<C>(store: Store<C>) {
    forall k :: k in store ==> store[k].id == k
  }

  function Meta<C>(f: StoredFile<C>): FileMeta {
    FileMeta(f.id, f.name, f.mime, f.size, f.createdAt)
  }

  // ---------------------------------------------------------------------
  // Save
  // ---------------------------------------------------------------------

  /** The `type` and `size` the record is given, as the source reads them:
      the argument's `type` and `size` properties, both `undefined` on a byte
      array. */
  function RecordedMetaAsWritten<C>(input: Input<C>): (r: (Option<string>, Option<nat>))
    ensures r.0.Some? <==> !input.ByteArray?
    ensures r.1.Some? <==> !input.ByteArray?
    ensures !input.ByteArray? ==> r == (Some(input.mime), Some(input.size))
  {
    match input
    case FileInput(mime, size, _) => (Some(mime), Some(size))
    case BlobInput(mime, size, _) => (Some(mime), Some(size))
    case ByteArray(_, _) => (None, None)
  }

  /** Saving the bytes of an extracted or merged document records neither a
      type nor a size, though the listing promises both. */
  lemma {:induction false} ByteArraySaveLosesMeta<C>(length: nat, content: C, name: string, id: string, now: int)
    ensures RecordedMetaAsWritten(ByteArray(length, content)) == (None, None)
    ensures var w := RecordAsWritten(ByteArray(length, content), name, id, now);
      w.mime.None? && w.size.None?
  {
  }

  /** The MIME type recorded for an input: its own, or for a byte array the
      type its content blob is created with. */
  function MimeOf<C>(input: Input<C>): string {
    match input
    case FileInput(mime, _, _) => mime
    case BlobInput(mime, _, _) => mime
    case ByteArray(_, _) => PdfMime
  }

  /** The byte count recorded for an input. */
  function SizeOf<C>(input: Input<C>): nat {
    match input
    case FileInput(_, size, _) => size
    case BlobInput(_, size, _) => size
    case ByteArray(length, _) => length
  }

  /** `saveFileToWorkspace(file, name)` with `id = crypto.randomUUID()` and
      `now = Date.now()`: one record is put under `id` and returned whole,
      content included; every other record is left as it was. */
  function Save<C>(store: Store<C>, input: Input<C>, name: string, id: string, now: int)
    : (r: (Store<C>, StoredFile<C>))
    ensures r.1.id == id && r.1.name == name && r.1.createdAt == now
    ensures r.1.content == input.content && r.1.size == SizeOf(input) && r.1.mime == MimeOf(input)
    ensures id in r.0 && r.0[id] == r.1
    ensures forall k :: k != id ==> (k in r.0 <==> k in store)
    ensures forall k :: k != id && k in store ==> r.0[k] == store[k]
    ensures id !in store ==> |r.0| == |store| + 1
    ensures KeyPathHolds(store) ==> KeyPathHolds(r.0)
  {
    var record := StoredFile(id, name, MimeOf(input), SizeOf(input), now, input.content);
    (store[id := record], record)
  }

  /** The record `saveFileToWorkspace` writes, as the source builds it: its
      `type` and `size` are whatever the argument's properties hold, which
      for a byte array is nothing. */
  datatype WrittenRecord<C> =
    WrittenRecord(id: string, name: string, mime: Option<string>, size: Option<nat>, createdAt: int, content: C)

  function RecordAsWritten<C>(input: Input<C>, name: string, id: string, now: int): (r: WrittenRecord<C>)
    ensures r.id == id && r.name == name && r.createdAt == now && r.content == input.content
    ensures r.mime.Some? <==> !input.ByteArray?
    ensures r.size.Some? <==> !input.ByteArray?
  {
    var (mime, size) := RecordedMetaAsWritten(input);
    WrittenRecord(id, name, mime, size, now, input.content)
  }

  /** `Save` writes the record the source writes, except that a byte array's
      missing type and size are filled in: for a `File` or a `Blob` both
      records agree field for field, for a byte array only the metadata
      differs. */
  lemma {:induction false} SaveAgreesWithCode<C>(store: Store<C>, input: Input<C>, name: string, id: string, now: int)
    ensures var f := Save(store, input, name, id, now).1;
      var w := RecordAsWritten(input, name, id, now);
      && f.id == w.id && f.name == w.name && f.createdAt == w.createdAt && f.content == w.content
      && (!input.ByteArray? <==> (w.mime == Some(f.mime) && w.size == Some(f.size)))
  {
  }

  /** Whatever the input kind, a saved record's metadata carries a size and
      a type: for a byte array its length and the PDF type. */
  lemma {:induction false} SaveRecordsByteArrayMeta<C>(store: Store<C>, length: nat, content: C, name: string, id: string, now: int)
    ensures var f := Save(store, ByteArray(length, content), name, id, now).1;
      f.size == length && f.mime == PdfMime
  {
  }

  // ---------------------------------------------------------------------
  // Get and delete
  // ---------------------------------------------------------------------

  /** `getFileContent(id)`: the record's content, or `undefined`. */
  function GetContent<C>(store: Store<C>, id: string): (r: Option<C>)
    ensures r.Some? <==> id in store
    ensures r.Some? ==> r.value == store[id].content
  {
    if id in store then Some(store[id].content) else None
  }

  /** `deleteFileFromWorkspace(id)`: the id is gone, nothing else changes,
      and an absent id is not an error. */
  function Delete<C>(store: Store<C>, id: string): (r: Store<C>)
    ensures id !in r
    ensures forall k :: k != id ==> (k in r <==> k in store)
    ensures forall k :: k in r ==> r[k] == store[k]
    ensures id !in store ==> r == store
    ensures id in store ==> |r| == |store| - 1
    ensures KeyPathHolds(store) ==> KeyPathHolds(r)
  {
    store - {id}
  }

  /** After a save, getting the returned id yields the saved content. */
  lemma {:induction false} GetAfterSave<C>(store: Store<C>, input: Input<C>, name: string, id: string, now: int)
    ensures var (s', f) := Save(store, input, name, id, now);
      GetContent(s', f.id) == Some(input.content)
  {
  }

  /** A save under a fresh id leaves every other id's content as it was. */
  lemma {:induction false} SaveFrame<C>(store: Store<C>, input: Input<C>, name: string, id: string, now: int, other: string)
    requires other != id
    ensures GetContent(Save(store, input, name, id, now).0, other) == GetContent(store, other)
  {
  }

  /** After a delete, getting that id yields nothing; other ids are
      unaffected; deleting twice is deleting once. */
  lemma {:induction false} GetAfterDelete<C>(store: Store<C>, id: string, other: string)
    ensures GetContent(Delete(store, id), id) == None
    ensures other != id ==> GetContent(Delete(store, id), other) == GetContent(store, other)
    ensures Delete(Delete(store, id), id) == Delete(store, id)
  {
  }

  /** Saving under a fresh id and deleting it again restores the store. */
  lemma {:induction false} DeleteUndoesSave<C>(store: Store<C>, input: Input<C>, name: string, id: string, now: int)
    requires id !in store
    ensures Delete(Save(store, input, name, id, now).0, id) == store
  {
  }

  // ---------------------------------------------------------------------
  // Listing
  // ---------------------------------------------------------------------

  /** `a` comes before `b` in the listing: `getAllFromIndex('files',
      'by-date')` yields ascending `createdAt`, equal dates by ascending id,
      and the result is reversed. */
  predicate Newer(a: FileMeta, b: FileMeta) {
    a.createdAt > b.createdAt || (a.createdAt == b.createdAt && Less(b.id, a.id))
  }

  lemma {:induction false} NewerTransitive(a: FileMeta, b: FileMeta, c: FileMeta)
    requires Newer(a, b) && Newer(b, c)
    ensures Newer(a, c)
  {
    if a.createdAt == b.createdAt == c.createdAt {
      LessTransitive(c.id, b.id, a.id);
    }
  }

  lemma {:induction false} NewerAsymmetric(a: FileMeta, b: FileMeta)
    requires Newer(a, b)
    ensures !Newer(b, a)
  {
    if a.createdAt == b.createdAt {
      LessAsymmetric(b.id, a.id);
    }
  }

  predicate IsNewest<C>(store: Store<C>, k: string) {
    k in store && forall k' :: k' in store && k' != k ==> Newer(Meta(store[k]), Meta(store[k']))
  }

  lemma {:induction false} NewestExists<C>(store: Store<C>)
    requires KeyPathHolds(store) && |store| > 0
    ensures exists k :: IsNewest(store, k)
    decreases |store|
  {
    var k0 :| k0 in store;
    var rest := Delete(store, k0);
    if |rest| == 0 {
      assert IsNewest(store, k0);
    } else {
      NewestExists(rest);
      var k1 :| IsNewest(rest, k1);
      var m0, m1 := Meta(store[k0]), Meta(store[k1]);
      if m0.createdAt == m1.createdAt {
        LessTotal(k0, k1);
      }
      if Newer(m0, m1) {
        forall k' | k' in store && k' != k0 ensures Newer(m0, Meta(store[k'])) {
          if k' != k1 {
            NewerTransitive(m0, m1, Meta(store[k']));
          }
        }
        assert IsNewest(store, k0);
      } else {
        assert IsNewest(store, k1);
      }
    }
  }

  lemma {:induction false} NewestUnique<C>(store: Store<C>)
    ensures forall k, k' :: IsNewest(store, k) && IsNewest(store, k') ==> k == k'
  {
    forall k, k' | IsNewest(store, k) && IsNewest(store, k') ensures k == k' {
      if k != k' {
        NewerAsymmetric(Meta(store[k]), Meta(store[k']));
      }
    }
  }

  /** `l` lists `store`: one content-free entry per record, every record
      listed, newest first (equal dates: larger id first). */
  predicate IsListing<C>(store: Store<C>, l: seq<FileMeta>) {
    && (forall i :: 0 <= i < |l| ==> l[i].id in store && l[i] == Meta(store[l[i].id]))
    && ListedIds(l) == store.Keys
    && (forall i, j :: 0 <= i < j < |l| ==> Newer(l[i], l[j]))
  }

  function ListedIds(l: seq<FileMeta>): set<string> {
    set i | 0 <= i < |l| :: l[i].id
  }

  /** `getWorkspaceFiles()`: the records' metadata in index order, reversed. */
  function ListFiles<C>(store: Store<C>): (r: seq<FileMeta>)
    requires KeyPathHolds(store)
    ensures IsListing(store, r)
    decreases |store|
  {
    if |store| == 0 then []
    else
      NewestExists(store);
      NewestUnique(store);
      var k :| IsNewest(store, k);
      var rest := ListFiles(Delete(store, k));
      ListCons(store, k, rest);
      [Meta(store[k])] + rest
  }

  lemma {:induction false} ListCons<C>(store: Store<C>, k: string, rest: seq<FileMeta>)
    requires KeyPathHolds(store) && IsNewest(store, k) && IsListing(Delete(store, k), rest)
    ensures IsListing(store, [Meta(store[k])] + rest)
  {
    var r := [Meta(store[k])] + rest;
    assert forall i :: 0 < i < |r| ==> r[i] == rest[i - 1];
    forall x | x in ListedIds(r) ensures x in store {
      var i :| 0 <= i < |r| && r[i].id == x;
      if i > 0 { assert rest[i - 1].id == x; }
    }
    forall x | x in store ensures x in ListedIds(r) {
      if x != k {
        assert x in ListedIds(rest);
        var i :| 0 <= i < |rest| && rest[i].id == x;
        assert r[i + 1].id == x;
      } else {
        assert r[0].id == x;
      }
    }
  }

  /** The listing is newest first: creation times never increase along it. */
  lemma {:induction false} ListingNewestFirst<C>(store: Store<C>, i: nat, j: nat)
    requires KeyPathHolds(store) && i <= j < |ListFiles(store)|
    ensures ListFiles(store)[i].createdAt >= ListFiles(store)[j].createdAt
  {
    var l := ListFiles(store);
    if i < j {
      assert Newer(l[i], l[j]);
    }
  }

  /** A listing names each record once. */
  lemma {:induction false} ListingDistinct<C>(store: Store<C>, l: seq<FileMeta>)
    requires IsListing(store, l)
    ensures forall i, j :: 0 <= i < j < |l| ==> l[i].id != l[j].id
  {
    forall i, j | 0 <= i < j < |l| ensures l[i].id != l[j].id {
      NewerIrreflexiveOnIds(l[i], l[j]);
    }
  }

  lemma {:induction false} NewerIrreflexiveOnIds(a: FileMeta, b: FileMeta)
    requires Newer(a, b)
    ensures a.createdAt != b.createdAt || a.id != b.id
  {
    if a.createdAt == b.createdAt && a.id == b.id {
      LessIrreflexive(a.id);
    }
  }

  lemma {:induction false} DistinctIdsCount(l: seq<FileMeta>)
    requires forall i, j :: 0 <= i < j < |l| ==> l[i].id != l[j].id
    ensures |ListedIds(l)| == |l|
  {
    if |l| > 0 {
      var tail := l[1..];
      DistinctIdsCount(tail);
      assert ListedIds(l) == ListedIds(tail) + {l[0].id} by {
        forall x | x in ListedIds(l) ensures x in ListedIds(tail) + {l[0].id} {
          var i :| 0 <= i < |l| && l[i].id == x;
          if i > 0 { assert tail[i - 1].id == x; }
        }
        forall x | x in ListedIds(tail) ensures x in ListedIds(l) {
          var i :| 0 <= i < |tail| && tail[i].id == x;
          assert l[i + 1].id == x;
        }
      }
      forall i | 0 <= i < |tail| ensures tail[i].id != l[0].id {
        assert tail[i] == l[i + 1];
      }
    }
  }

  /** A listing has exactly one entry per record. */
  lemma {:induction false} ListingLength<C>(store: Store<C>, l: seq<FileMeta>)
    requires IsListing(store, l)
    ensures |l| == |store|
  {
    ListingDistinct(store, l);
    DistinctIdsCount(l);
    assert |store.Keys| == |store|;
  }

  /** A record strictly newer than all others is listed first. */
  lemma {:induction false} StrictlyNewestListedFirst<C>(store: Store<C>, l: seq<FileMeta>, id: string)
    requires IsListing(store, l) && id in store
    requires forall k :: k in store && k != id ==> store[k].createdAt < store[id].createdAt
    ensures |l| > 0 && l[0].id == id
  {
    assert id in ListedIds(l);
    var i :| 0 <= i < |l| && l[i].id == id;
    assert l[0].createdAt >= l[i].createdAt;
    assert l[0].id in store;
  }

  /** Right after a save under a fresh id, the listing holds exactly one
      entry for it, with the given name and the save time; if the clock has
      moved past every earlier record, that entry comes first. */
  lemma {:induction false} ListAfterSave<C>(store: Store<C>, input: Input<C>, name: string, id: string, now: int)
    requires KeyPathHolds(store) && id !in store
    ensures var s' := Save(store, input, name, id, now).0;
      var l := ListFiles(s');
      && |l| == |store| + 1
      && (exists i :: 0 <= i < |l| && l[i].id == id && l[i].name == name && l[i].createdAt == now)
      && (forall i, j :: 0 <= i < j < |l| ==> l[i].id != l[j].id)
      && ((forall k :: k in store ==> store[k].createdAt < now) ==> l[0].id == id)
  {
    var s' := Save(store, input, name, id, now).0;
    var l := ListFiles(s');
    ListingLength(s', l);
    ListingDistinct(s', l);
    assert id in ListedIds(l);
    if forall k :: k in store ==> store[k].createdAt < now {
      StrictlyNewestListedFirst(s', l, id);
    }
  }
}
