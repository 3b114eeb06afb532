/** The File model: the database tables it reads and writes (`files`,
    `file_shares`, `starred_files`, `users`) plus the object store, as one
    mutable `Vault`, with the model's own operations: the creating hook
    (through `appendNode`), `moveToTrash`, `restore`, `deleteForever` and
    `deleteFilesFromStorage`. */
module FileModel {
  import opened Types
  import opened Tree
  import opened Ordering

  /** The parent row `appendNode` hands to the creating hook. */
  function ParentRow(f: Files, parent: Option<Id>): Option<Entry>
    requires parent.Some? ==> parent.value in f
  {
    match parent
    case None => None
    case Some(p) => Some(f[p])
  }

  /** The row `appendNode` saves for the unsaved model `e`: it hangs under
      `parent`, belongs to the acting user, is live, and carries the path
      the creating hook computes from the parent row and the name. */
  function NewRow(parentRow: Option<Entry>, parent: Option<Id>, e: Entry, user: UserId, now: int,
                  slug: string -> string): (r: Entry)
    ensures r.parentId == parent && r.createdBy == user && IsLive(r)
    ensures r.path == HookPath(parentRow, e.name, slug)
    ensures r.name == e.name && r.isFolder == e.isFolder && r.kind == e.kind && r.size == e.size
    ensures r.storagePath == e.storagePath && r.noteContent == e.noteContent && r.mime == e.mime
  {
    e.(parentId := parent, path := HookPath(parentRow, e.name, slug), createdBy := user,
       createdAt := now, updatedAt := now, deletedAt := None)
  }

  /** A model that has not been saved yet: the attributes a controller sets
      before `appendNode` or `save`. */
  function Unsaved(name: string, isFolder: bool, kind: Kind, mime: Option<string>, size: Option<nat>,
                   storagePath: Option<BlobKey>, noteContent: Option<Bytes>): Entry
  {
    Entry(name, isFolder, kind, mime, size, storagePath, noteContent, None, None, 0, 0, 0, None)
  }

  /** `moveToTrash`: `deleted_at` is set; `save()` also bumps `updated_at`. */
  function Trashed(e: Entry, now: int): (r: Entry)
    ensures !IsLive(r)
  {
    e.(deletedAt := Some(now), updatedAt := now)
  }

  /** SoftDeletes `restore`: `deleted_at` is cleared and `updated_at` bumped. */
  function Restored(e: Entry, now: int): (r: Entry)
    ensures IsLive(r)
  {
    e.(deletedAt := None, updatedAt := now)
  }

  /** Trashing and then restoring changes only `updated_at`. */
  lemma TrashThenRestore(e: Entry, t1: int, t2: int)
    requires IsLive(e)
    ensures Restored(Trashed(e, t1), t2) == e.(updatedAt := t2)
  {
  }

  lemma MinusTwice<K, V>(m: map<K, V>, a: set<K>, b: set<K>)
    ensures (m - a) - b == m - (a + b)
  {
  }

  lemma BlobKeysUnion(f: Files, a: set<Id>, b: set<Id>)
    ensures BlobKeysOf(f, a + b) == BlobKeysOf(f, a) + BlobKeysOf(f, b)
  {
  }

  lemma BlobKeysWithout(f: Files, u: set<Id>, x: set<Id>)
    requires u !! x
    ensures BlobKeysOf(f - u, x) == BlobKeysOf(f, x)
  {
    assert forall c :: c in x && c in f ==> c in f - u && (f - u)[c] == f[c];
  }

  lemma BlobKeysOne(f: Files, id: Id)
    requires id in f
    ensures BlobKeysOf(f, {id}) == if StoresBlob(f[id]) then {f[id].storagePath.value} else {}
  {
  }

  /** One step of the loop in `deleteForever`: once the subtrees in `done`
      are gone, purging child `c` leaves exactly what purging `done` and the
      whole subtree of `c` from the start would have left. */
  lemma PurgeChildStep(f: Files, sh: seq<ShareRow>, st: set<Star>, b: map<BlobKey, Bytes>, done: set<Id>, c: Id)
    requires DownClosed(f, done, true)
    ensures (f - done) - Subtree(f - done, c, true) == f - (done + Subtree(f, c, true))
    ensures SharesWithout(SharesWithout(sh, done), Subtree(f - done, c, true))
         == SharesWithout(sh, done + Subtree(f, c, true))
    ensures StarsWithout(StarsWithout(st, done), Subtree(f - done, c, true))
         == StarsWithout(st, done + Subtree(f, c, true))
    ensures (b - BlobKeysOf(f, done)) - BlobKeysOf(f - done, Subtree(f - done, c, true))
         == b - BlobKeysOf(f, done + Subtree(f, c, true))
  {
    var sub := Subtree(f, c, true);
    SubtreeWithout(f, done, c, true);
    assert Subtree(f - done, c, true) == sub - done;
    assert done + (sub - done) == done + sub;
    SharesWithoutTwice(sh, done, sub - done);
    BlobKeysWithout(f, done, sub - done);
    BlobKeysUnion(f, done, sub - done);
  }

  /** The last step of `deleteForever`: the row itself goes after its
      subtree below. */
  lemma PurgeSelfStep(f: Files, sh: seq<ShareRow>, st: set<Star>, b: map<BlobKey, Bytes>, below: set<Id>, id: Id)
    requires id in f && id !in below
    ensures (f - below) - {id} == f - (below + {id})
    ensures SharesWithout(SharesWithout(sh, below), {id}) == SharesWithout(sh, below + {id})
    ensures StarsWithout(StarsWithout(st, below), {id}) == StarsWithout(st, below + {id})
    ensures (b - BlobKeysOf(f, below)) - (if StoresBlob(f[id]) then {f[id].storagePath.value} else {})
         == b - BlobKeysOf(f, below + {id})
  {
    SharesWithoutTwice(sh, below, {id});
    BlobKeysUnion(f, below, {id});
    BlobKeysOne(f, id);
  }

  lemma UnionSubtreesSnoc(f: Files, cs: seq<Id>, i: nat, wt: bool)
    requires i < |cs|
    ensures UnionSubtrees(f, cs[..i + 1], wt) == UnionSubtrees(f, cs[..i], wt) + Subtree(f, cs[i], wt)
  {
    assert cs[..i + 1][..i] == cs[..i];
  }

  /** The blobs in the subtree of `x`: those below a folder, or the row's
      own blob. */
  lemma BlobKeysOfSubtree(f: Files, bound: nat, x: Id, wt: bool)
    requires Bounded(f, bound) && ParentsBelow(f) && x in f
    ensures BlobKeysOf(f, Subtree(f, x, wt))
         == if f[x].isFolder then BlobKeysOf(f, UnionSubtrees(f, ChildIds(f, x, bound, wt), wt))
            else if StoresBlob(f[x]) then {f[x].storagePath.value} else {}
  {
    BlobKeysOne(f, x);
    if f[x].isFolder {
      SubtreeOfFolder(f, bound, x, wt);
      BlobKeysUnion(f, {x}, UnionSubtrees(f, ChildIds(f, x, bound, wt), wt));
    } else {
      SubtreeOfLeaf(f, x, wt);
    }
  }

  // ---------------------------------------------------------------------
  // `getSharedWithMe` and `getSharedByMe`: `files` joined with
  // `file_shares`, one result row per share row of a live file, ordered by
  // the share's `created_at` and then the file id, both descending.

  /** The share row `s` joins a live file and passes the listing's filter:
      shared with `user`, or shared by (the file created by) `user`. */
  predicate Joins(f: Files, s: ShareRow, byMe: bool, user: UserId) {
    s.fileId in f && IsLive(f[s.fileId]) && (if byMe then f[s.fileId].createdBy == user else s.userId == user)
  }

  function ShareKey(s: ShareRow): Keyed {
    Keyed([s.createdAt, s.fileId], s.fileId)
  }

  /** The joined rows, in `file_shares` order. */
  function JoinShares(f: Files, shares: seq<ShareRow>, byMe: bool, user: UserId): (r: seq<Keyed>)
    ensures forall k :: k in r <==> exists s :: s in shares && Joins(f, s, byMe, user) && k == ShareKey(s)
    ensures |r| <= |shares|
  {
    if shares == [] then []
    else
      var rest := JoinShares(f, shares[1..], byMe, user);
      assert forall s :: s in shares <==> s == shares[0] || s in shares[1..];
      (if Joins(f, shares[0], byMe, user) then [ShareKey(shares[0])] else []) + rest
  }

  /** `getSharedWithMe()->get()`. */
  function SharedWithMe(f: Files, shares: seq<ShareRow>, user: UserId): (r: seq<Keyed>)
    ensures SortedDesc(r)
    ensures multiset(r) == multiset(JoinShares(f, shares, false, user))
    ensures forall k :: k in r <==> exists s :: s in shares && Joins(f, s, false, user) && k == ShareKey(s)
  {
    var j := JoinShares(f, shares, false, user);
    var r := SortDesc(j);
    assert forall k :: (k in r <==> k in multiset(r)) && (k in j <==> k in multiset(j));
    r
  }

  /** `getSharedByMe()->get()`. */
  function SharedByMe(f: Files, shares: seq<ShareRow>, user: UserId): (r: seq<Keyed>)
    ensures SortedDesc(r)
    ensures multiset(r) == multiset(JoinShares(f, shares, true, user))
    ensures forall k :: k in r <==> exists s :: s in shares && Joins(f, s, true, user) && k == ShareKey(s)
  {
    var j := JoinShares(f, shares, true, user);
    var r := SortDesc(j);
    assert forall k :: (k in r <==> k in multiset(r)) && (k in j <==> k in multiset(j));
    r
  }

  class Vault {
    var files: Files
    var shares: seq<ShareRow>
    var stars: set<Star>
    var blobs: map<BlobKey, Bytes>
    var users: map<UserId, User>
    var nextId: nat
    var nextSerial: nat
    /** `Str::slug`, which the model does not interpret. */
    const slug: string -> string

    /** Ids come from a counter and a row is created after its parent; the
        object store never reuses a serial. */
    ghost predicate Valid()
      reads this
    {
      && Bounded(files, nextId)
      && ParentsBelow(files)
      && (forall k :: k in blobs ==> k.serial < nextSerial)
    }

    constructor (slug: string -> string, users: map<UserId, User>)
      ensures Valid()
      ensures this.slug == slug && this.users == users
      ensures files == map[] && shares == [] && stars == {} && blobs == map[]
    {
      this.slug := slug;
      this.users := users;
      files := map[];
      shares := [];
      stars := {};
      blobs := map[];
      nextId := 1;
      nextSerial := 0;
    }

    /** `$model->children`: the live children of `p`, in id order. */
    function Children(p: Id): (r: seq<Id>)
      reads this
      requires Valid()
      ensures forall c :: c in r <==> IsChild(files, c, p, false)
      ensures forall i, j :: 0 <= i < j < |r| ==> r[i] < r[j]
      ensures forall c :: c in r ==> p < c < nextId
    {
      ChildIds(files, p, nextId, false)
    }

    /** `$parent->appendNode($model)` (or `makeRoot()->save()` when `parent`
        is None): the row gets the next id, hangs under `parent`, and the
        creating hook computes its path. */
    method Append(parent: Option<Id>, e: Entry, user: UserId, now: int) returns (id: Id)
      requires Valid()
      requires parent.Some? ==> parent.value in files
      modifies this
      ensures Valid()
      ensures id == old(nextId) && id !in old(files) && nextId == old(nextId) + 1
      ensures files == old(files)[id := NewRow(ParentRow(old(files), parent), parent, e, user, now, slug)]
      ensures shares == old(shares) && stars == old(stars) && blobs == old(blobs)
      ensures users == old(users) && nextSerial == old(nextSerial)
    {
      id := nextId;
      files := files[id := NewRow(ParentRow(files, parent), parent, e, user, now, slug)];
      nextId := nextId + 1;
    }

    /** `$file->store(...)`: the object store keeps the bytes under a key it
        has never handed out. */
    method StoreBlob(owner: UserId, content: Bytes) returns (key: BlobKey)
      requires Valid()
      modifies this
      ensures Valid()
      ensures key == BlobKey(owner, old(nextSerial)) && key !in old(blobs)
      ensures blobs == old(blobs)[key := content] && nextSerial == old(nextSerial) + 1
      ensures files == old(files) && shares == old(shares) && stars == old(stars)
      ensures users == old(users) && nextId == old(nextId)
    {
      key := BlobKey(owner, nextSerial);
      blobs := blobs[key := content];
      nextSerial := nextSerial + 1;
    }

    /** `moveToTrash`: marks this row only; its children keep their state. */
    method MoveToTrash(id: Id, now: int)
      requires Valid() && id in files
      modifies this
      ensures Valid()
      ensures files == old(files)[id := Trashed(old(files)[id], now)]
      ensures shares == old(shares) && stars == old(stars) && blobs == old(blobs)
      ensures users == old(users) && nextId == old(nextId) && nextSerial == old(nextSerial)
    {
      files := files[id := Trashed(files[id], now)];
    }

    /** SoftDeletes `restore` on one row. */
    method Restore(id: Id, now: int)
      requires Valid() && id in files
      modifies this
      ensures Valid()
      ensures files == old(files)[id := Restored(old(files)[id], now)]
      ensures shares == old(shares) && stars == old(stars) && blobs == old(blobs)
      ensures users == old(users) && nextId == old(nextId) && nextSerial == old(nextSerial)
    {
      files := files[id := Restored(files[id], now)];
    }

    /** `deleteForever`: a folder first purges every child, trashed or live;
        then the share and star rows of the row go, its blob goes when it is
        a real file, and the row itself goes. A row that is gone already (a
        stale model from the same bulk request) leaves everything as is. */
    method DeleteForever(id: Id)
      requires Valid()
      modifies this
      ensures Valid()
      ensures files == old(files) - Subtree(old(files), id, true)
      ensures shares == SharesWithout(old(shares), Subtree(old(files), id, true))
      ensures stars == StarsWithout(old(stars), Subtree(old(files), id, true))
      ensures blobs == old(blobs) - BlobKeysOf(old(files), Subtree(old(files), id, true))
      ensures users == old(users) && nextId == old(nextId) && nextSerial == old(nextSerial)
      decreases nextId - id, 1
    {
      ghost var F, Sh, St, B := files, shares, stars, blobs;
      if id !in files {
        SubtreeOfLeaf(F, id, true);
        assert files == F - {};
        SharesWithoutNothing(Sh);
        return;
      }
      var e := files[id];
      ghost var U: set<Id> := {};
      if e.isFolder {
        var children := ChildIds(files, id, nextId, true);
        assert forall i :: 0 <= i < |children| ==> children[i] in children;
        DeleteEachForever(children, id);
        U := UnionSubtrees(F, children, true);
        FolderSplit(F, nextId, id);
      } else {
        SubtreeOfLeaf(F, id, true);
        SharesWithoutNothing(Sh);
        assert F - {} == F && B - BlobKeysOf(F, {}) == B;
        SubtreeOfLeaf(files, id, true);
      }
      assert Subtree(F, id, true) == U + {id} && id !in U;
      assert files == F - U && files[id] == e;
      PurgeSelfStep(F, Sh, St, B, U, id);
      BlobKeysOne(F, id);
      PurgeRow(id);
    }

    /** The end of `deleteForever` for one row: its share and star rows,
        its blob when it is a real file, and the row itself. It runs only
        once nothing below the row is left: children go before their parent. */
    method PurgeRow(id: Id)
      requires Valid() && id in files
      requires Subtree(files, id, true) == {id}
      modifies this
      ensures Valid()
      ensures files == old(files) - {id}
      ensures shares == SharesWithout(old(shares), {id})
      ensures stars == StarsWithout(old(stars), {id})
      ensures blobs == old(blobs) - (if StoresBlob(old(files)[id]) then {old(files)[id].storagePath.value} else {})
      ensures users == old(users) && nextId == old(nextId) && nextSerial == old(nextSerial)
    {
      var e := files[id];
      shares := SharesWithout(shares, {id});
      stars := StarsWithout(stars, {id});
      if StoresBlob(e) {
        blobs := blobs - {e.storagePath.value};
      } else {
        assert blobs - {} == blobs;
      }
      files := files - {id};
    }

    /** `foreach ($children as $child) $child->deleteForever()`: the rows
        were fetched first, so a row that an earlier iteration already
        purged is met stale and leaves everything as is. The result is the
        purge of the union of the subtrees. */
    method DeleteEachForever(cs: seq<Id>, ghost floor: int)
      requires Valid()
      requires -1 <= floor <= nextId
      requires forall i :: 0 <= i < |cs| ==> floor < cs[i]
      modifies this
      ensures Valid()
      ensures files == old(files) - UnionSubtrees(old(files), cs, true)
      ensures shares == SharesWithout(old(shares), UnionSubtrees(old(files), cs, true))
      ensures stars == StarsWithout(old(stars), UnionSubtrees(old(files), cs, true))
      ensures blobs == old(blobs) - BlobKeysOf(old(files), UnionSubtrees(old(files), cs, true))
      ensures users == old(users) && nextId == old(nextId) && nextSerial == old(nextSerial)
      decreases nextId - floor, 0
    {
      ghost var F, Sh, St, B := files, shares, stars, blobs;
      var i := 0;
      assert cs[..0] == [];
      SharesWithoutNothing(Sh);
      while i < |cs|
        invariant 0 <= i <= |cs|
        invariant Valid()
        invariant users == old(users) && nextId == old(nextId) && nextSerial == old(nextSerial)
        invariant files == F - UnionSubtrees(F, cs[..i], true)
        invariant shares == SharesWithout(Sh, UnionSubtrees(F, cs[..i], true))
        invariant stars == StarsWithout(St, UnionSubtrees(F, cs[..i], true))
        invariant blobs == B - BlobKeysOf(F, UnionSubtrees(F, cs[..i], true))
      {
        UnionSubtreesClosed(F, cs[..i], true);
        PurgeChildStep(F, Sh, St, B, UnionSubtrees(F, cs[..i], true), cs[i]);
        DeleteForever(cs[i]);
        UnionSubtreesSnoc(F, cs, i, true);
        i := i + 1;
      }
      assert cs[..i] == cs;
    }

    /** `deleteFilesFromStorage`: walks the given models and their live
        children and deletes the blob of every real file it meets; the
        rows stay. */
    method DeleteFilesFromStorage(ids: seq<Id>, ghost floor: int)
      requires Valid()
      requires floor >= -1
      requires forall i :: 0 <= i < |ids| ==> ids[i] in files && floor < ids[i]
      modifies this`blobs
      ensures Valid()
      ensures blobs == old(blobs) - BlobKeysOf(files, UnionSubtrees(files, ids, false))
      decreases nextId - floor, 1
    {
      ghost var B := blobs;
      var i := 0;
      assert ids[..0] == [];
      assert BlobKeysOf(files, {}) == {};
      assert B - {} == B;
      while i < |ids|
        invariant 0 <= i <= |ids|
        invariant Valid()
        invariant blobs == B - BlobKeysOf(files, UnionSubtrees(files, ids[..i], false))
      {
        ghost var before := blobs;
        DeleteFromStorage(ids[i], floor);
        UnionSubtreesSnoc(files, ids, i, false);
        BlobKeysUnion(files, UnionSubtrees(files, ids[..i], false), Subtree(files, ids[i], false));
        MinusTwice(B, BlobKeysOf(files, UnionSubtrees(files, ids[..i], false)), BlobKeysOf(files, Subtree(files, ids[i], false)));
        i := i + 1;
      }
      assert ids[..i] == ids;
    }

    /** The body of the walk for one model: a folder recurses into its live
        children, a real file loses its blob. */
    method DeleteFromStorage(x: Id, ghost floor: int)
      requires Valid() && x in files && floor < x
      modifies this`blobs
      ensures Valid()
      ensures blobs == old(blobs) - BlobKeysOf(files, Subtree(files, x, false))
      decreases nextId - floor, 0
    {
      BlobKeysOfSubtree(files, nextId, x, false);
      if files[x].isFolder {
        var kids := Children(x);
        assert forall j :: 0 <= j < |kids| ==> kids[j] in kids;
        DeleteFilesFromStorage(kids, x);
      } else if StoresBlob(files[x]) {
        blobs := blobs - {files[x].storagePath.value};
      } else {
        assert old(blobs) - {} == old(blobs);
      }
    }
  }
}
