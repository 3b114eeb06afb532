/** The FileController: the My Files listing, the lazily created root
    folder, folder creation and uploads, bulk trash, restore and purge,
    stars, shares, notes and previews. Every action runs for the
    authenticated `user`. Request validation is not part of this model: a
    `parent` id that names no row stands for a null `$parent`, and reading
    it ends the request with an error where the code reads it. */
module FileController {
  import opened Types
  import opened Tree
  import opened Ordering
  import opened FileModel

  // ---------------------------------------------------------------------
  // The root folder.

  /** A root folder of `user`: live, created by `user`, without a parent. */
  predicate IsRootOf(e: Entry, user: UserId) {
    IsLive(e) && IsRoot(e) && IsOwnedBy(e, user)
  }

  /** `where('created_by', user)->whereIsRoot()->first()`. */
  function FindRoot(f: Files, user: UserId, hi: nat): (r: Option<Id>)
    ensures r.Some? ==> r.value < hi && r.value in f && IsRootOf(f[r.value], user)
    ensures r.None? ==> forall c :: c < hi && c in f ==> !IsRootOf(f[c], user)
  {
    var r := FirstOf(f, RootOf(user), hi);
    assert forall c :: c in f ==> (Matches(f[c], c, RootOf(user)) <==> IsRootOf(f[c], user));
    r
  }

  /** A model before it is saved: the attributes an action fills in. */
  function Folder(name: string): Entry {
    Unsaved(name, true, Regular, None, None, None, None)
  }

  /** The rows after `getRoot` at counter `hi`: unchanged when the user has a
      root, otherwise with a new root folder named after the user's email. */
  function WithRoot(f: Files, hi: nat, user: UserId, email: string, now: int, slug: string -> string): Files {
    if FindRoot(f, user, hi).Some? then f
    else f[hi := NewRow(None, None, Folder(email), user, now, slug)]
  }

  /** The counter after `getRoot`. */
  function NextAfterRoot(f: Files, hi: nat, user: UserId): nat {
    if FindRoot(f, user, hi).Some? then hi else hi + 1
  }

  /** The root `getRoot` creates has no path: the creating hook stops at a
      row without a parent. */
  lemma NewRootHasNoPath(f: Files, hi: nat, user: UserId, email: string, now: int, slug: string -> string)
    requires Bounded(f, hi)
    requires FindRoot(f, user, hi).None?
    ensures var g := WithRoot(f, hi, user, email, now, slug);
      hi in g && g[hi].path.None? && g[hi].name == email && g[hi].isFolder && IsRootOf(g[hi], user)
  {
  }

  /** `getRoot` is idempotent: after one call the user has a root, so a
      second call, at any time and whatever the email, finds it and leaves
      the rows as they are. */
  lemma {:induction false} GetRootIdempotent(f: Files, hi: nat, user: UserId, email: string, now: int,
                                             email2: string, now2: int, slug: string -> string)
    requires Bounded(f, hi)
    ensures var g := WithRoot(f, hi, user, email, now, slug);
      var hi2 := NextAfterRoot(f, hi, user);
      FindRoot(g, user, hi2).Some? && WithRoot(g, hi2, user, email2, now2, slug) == g
  {
    var g := WithRoot(f, hi, user, email, now, slug);
    var hi2 := NextAfterRoot(f, hi, user);
    if FindRoot(f, user, hi).None? {
      assert hi in g && IsRootOf(g[hi], user);
    } else {
      var r := FindRoot(f, user, hi).value;
      assert r in g && IsRootOf(g[r], user);
    }
  }

  /** `getRoot`: the user's root folder, created on first use. */
  method GetRoot(v: Vault, user: UserId, now: int) returns (root: Id)
    requires v.Valid() && user in v.users
    modifies v
    ensures v.Valid()
    ensures v.files == WithRoot(old(v.files), old(v.nextId), user, old(v.users[user].email), now, v.slug)
    ensures v.nextId == NextAfterRoot(old(v.files), old(v.nextId), user)
    ensures FindRoot(v.files, user, v.nextId) == Some(root) && root in v.files
    ensures v.shares == old(v.shares) && v.stars == old(v.stars) && v.blobs == old(v.blobs)
    ensures v.users == old(v.users) && v.nextSerial == old(v.nextSerial)
  {
    var found := FindRoot(v.files, user, v.nextId);
    if found.Some? {
      root := found.value;
    } else {
      ghost var f, hi := v.files, v.nextId;
      root := v.Append(None, Folder(v.users[user].email), user, now);
      GetRootIdempotent(f, hi, user, v.users[user].email, now, v.users[user].email, now, v.slug);
      assert FindRoot(v.files, user, v.nextId).Some?;
    }
  }

  /** `if (! $parent) $parent = $this->getRoot();` */
  method ParentOrRoot(v: Vault, parent: Option<Id>, user: UserId, now: int) returns (p: Id)
    requires v.Valid() && user in v.users
    requires parent.Some? ==> parent.value in v.files
    modifies v
    ensures v.Valid() && p in v.files
    ensures parent.Some? ==> p == parent.value && v.files == old(v.files) && v.nextId == old(v.nextId)
    ensures parent.None? ==> v.files == WithRoot(old(v.files), old(v.nextId), user, old(v.users[user].email), now, v.slug)
    ensures parent.None? ==> v.nextId == NextAfterRoot(old(v.files), old(v.nextId), user)
    ensures parent.None? ==> FindRoot(v.files, user, v.nextId) == Some(p)
    ensures v.shares == old(v.shares) && v.stars == old(v.stars) && v.blobs == old(v.blobs)
    ensures v.users == old(v.users) && v.nextSerial == old(v.nextSerial)
  {
    if parent.Some? {
      p := parent.value;
    } else {
      p := GetRoot(v, user, now);
    }
  }

  // ---------------------------------------------------------------------
  // The My Files listing.

  /** `ORDER BY is_folder DESC, created_at DESC, id DESC`. */
  function ListingKey(e: Entry, c: Id): seq<int> {
    [if e.isFolder then 1 else 0, e.createdAt, c]
  }

  function KeyedRows(f: Files, cs: seq<Id>): (r: seq<Keyed>)
    requires forall i :: 0 <= i < |cs| ==> cs[i] in f
    ensures |r| == |cs|
    ensures forall i :: 0 <= i < |cs| ==> r[i] == Keyed(ListingKey(f[cs[i]], cs[i]), cs[i])
  {
    if cs == [] then [] else [Keyed(ListingKey(f[cs[0]], cs[0]), cs[0])] + KeyedRows(f, cs[1..])
  }

  /** No element occurs twice. */
  predicate Distinct<T(==)>(s: seq<T>) {
    forall i, j :: 0 <= i < j < |s| ==> s[i] != s[j]
  }

  lemma {:induction false} DistinctCounts<T>(s: seq<T>, x: T)
    requires Distinct(s)
    ensures multiset(s)[x] <= 1
  {
    if s != [] {
      assert s == [s[0]] + s[1..];
      DistinctCounts(s[1..], x);
      if s[0] == x {
        assert x !in s[1..];
      }
    }
  }

  /** A rearrangement of a sequence without repeats has no repeats. */
  lemma DistinctPermutation<T>(s: seq<T>, r: seq<T>)
    requires Distinct(s) && multiset(r) == multiset(s)
    ensures Distinct(r)
  {
    forall i, j | 0 <= i < j < |r| ensures r[i] != r[j] {
      if r[i] == r[j] {
        assert r == r[..i] + [r[i]] + r[i + 1..j] + [r[j]] + r[j + 1..];
        assert multiset(r)[r[i]] >= 2;
        DistinctCounts(s, r[i]);
      }
    }
  }

  /** The rows of the My Files page, before pagination: exactly the rows
      the filter keeps, each once, larger keys first. */
  function Listing(f: Files, q: Query, hi: nat): (r: seq<Keyed>)
    requires q.MyFiles?
    ensures SortedDesc(r)
    ensures forall k :: k in r <==> k.id < hi && k.id in f && Matches(f[k.id], k.id, q) && k.key == ListingKey(f[k.id], k.id)
    ensures forall i, j :: 0 <= i < j < |r| ==> r[i].id != r[j].id
  {
    var cs := Select(f, q, hi);
    assert forall i :: 0 <= i < |cs| ==> cs[i] in cs;
    var rows := KeyedRows(f, cs);
    KeyedRowsMembers(f, cs);
    var r := SortDesc(rows);
    SameMembers(r, rows);
    DistinctPermutation(rows, r);
    r
  }

  lemma KeyedRowsMembers(f: Files, cs: seq<Id>)
    requires forall i :: 0 <= i < |cs| ==> cs[i] in f
    requires forall i, j :: 0 <= i < j < |cs| ==> cs[i] < cs[j]
    ensures forall k :: k in KeyedRows(f, cs) <==> k.id in cs && k.key == ListingKey(f[k.id], k.id)
    ensures Distinct(KeyedRows(f, cs))
  {
    var rows := KeyedRows(f, cs);
    forall k ensures k in rows <==> k.id in cs && k.key == ListingKey(f[k.id], k.id) {
      if k.id in cs && k.key == ListingKey(f[k.id], k.id) {
        var i :| 0 <= i < |cs| && cs[i] == k.id;
        assert rows[i] == k;
      }
    }
  }

  lemma SameMembers<T>(r: seq<T>, s: seq<T>)
    requires multiset(r) == multiset(s)
    ensures forall x :: x in r <==> x in s
  {
    assert forall x :: (x in r <==> x in multiset(r)) && (x in s <==> x in multiset(s));
  }

  /** Two selections agree when the rows below `hi` agree on the filter. */
  lemma {:induction false} SelectSame(f: Files, g: Files, q: Query, hi: nat)
    requires forall c :: c < hi ==> (c in f && Matches(f[c], c, q)) == (c in g && Matches(g[c], c, q))
    ensures Select(f, q, hi) == Select(g, q, hi)
  {
    if hi > 0 {
      SelectSame(f, g, q, hi - 1);
    }
  }

  lemma {:induction false} KeyedRowsSame(f: Files, g: Files, cs: seq<Id>)
    requires forall i :: 0 <= i < |cs| ==> cs[i] in f && cs[i] in g && ListingKey(f[cs[i]], cs[i]) == ListingKey(g[cs[i]], cs[i])
    ensures KeyedRows(f, cs) == KeyedRows(g, cs)
  {
    if cs != [] {
      KeyedRowsSame(f, g, cs[1..]);
    }
  }

  /** Trashing a live row and restoring it leaves every My Files listing as
      it was: only `updated_at` differs, and no listing looks at it. */
  lemma TrashThenRestoreListing(f: Files, q: Query, id: Id, t1: int, t2: int, hi: nat)
    requires q.MyFiles?
    requires id in f && IsLive(f[id])
    ensures Listing(f[id := Restored(Trashed(f[id], t1), t2)], q, hi) == Listing(f, q, hi)
  {
    var g := f[id := Restored(Trashed(f[id], t1), t2)];
    TrashThenRestore(f[id], t1, t2);
    assert forall c :: c in f ==> c in g && (g[c] == f[c] || g[c] == f[c].(updatedAt := t2));
    SelectSame(g, f, q, hi);
    var cs := Select(f, q, hi);
    assert forall i :: 0 <= i < |cs| ==> cs[i] in cs;
    KeyedRowsSame(g, f, cs);
  }

  /** A trashed row drops out of every My Files listing. */
  lemma TrashedNotListed(f: Files, q: Query, id: Id, now: int, hi: nat)
    requires q.MyFiles? && id in f
    ensures forall k :: k in Listing(f[id := Trashed(f[id], now)], q, hi) ==> k.id != id
  {
  }

  /** What `index` shows. */
  datatype FolderPage = FolderMissing | FolderPage(folder: Id, rows: seq<Keyed>)

  /** `index`: the folder is the row at the path in the URL (a 404 when there
      is none) or the user's root; the rows are those `Listing` describes. */
  method Index(v: Vault, folderPath: string, search: string, favourites: bool, user: UserId, now: int,
               like: (string, string) -> bool) returns (r: FolderPage)
    requires v.Valid() && user in v.users
    modifies v
    ensures v.Valid()
    ensures Truthy(folderPath) ==> v.files == old(v.files) && v.nextId == old(v.nextId)
    ensures Truthy(folderPath) ==> (r.FolderMissing? <==> FirstOf(v.files, AtPath(user, folderPath), v.nextId).None?)
    ensures Truthy(folderPath) && r.FolderPage? ==> FirstOf(v.files, AtPath(user, folderPath), v.nextId) == Some(r.folder)
    ensures !Truthy(folderPath) ==> v.files == WithRoot(old(v.files), old(v.nextId), user, old(v.users[user].email), now, v.slug)
    ensures !Truthy(folderPath) ==> r.FolderPage? && FindRoot(v.files, user, v.nextId) == Some(r.folder)
    ensures r.FolderPage? ==> r.rows == Listing(v.files, MyFiles(v.stars, user, r.folder, search, favourites, like), v.nextId)
    ensures v.shares == old(v.shares) && v.stars == old(v.stars) && v.blobs == old(v.blobs)
    ensures v.users == old(v.users) && v.nextSerial == old(v.nextSerial)
  {
    var folder: Id;
    if Truthy(folderPath) {
      var found := FirstOf(v.files, AtPath(user, folderPath), v.nextId);
      if found.None? {
        return FolderMissing;
      }
      folder := found.value;
    } else {
      folder := GetRoot(v, user, now);
    }
    r := FolderPage(folder, Listing(v.files, MyFiles(v.stars, user, folder, search, favourites, like), v.nextId));
  }

  /** `createFolder`: a folder row under the given parent or the root. */
  method CreateFolder(v: Vault, parent: Option<Id>, name: string, user: UserId, now: int) returns (p: Id, id: Id)
    requires v.Valid() && user in v.users
    requires parent.Some? ==> parent.value in v.files
    modifies v
    ensures v.Valid()
    ensures parent.Some? ==> p == parent.value
    ensures parent.None? ==> FindRoot(v.files - {id}, user, id) == Some(p)
    ensures id == v.nextId - 1 && p in v.files && id in v.files && p != id
    ensures v.files - {id} == (if parent.Some? then old(v.files)
                               else WithRoot(old(v.files), old(v.nextId), user, old(v.users[user].email), now, v.slug))
    ensures v.files[id] == NewRow(Some(v.files[p]), Some(p), Folder(name), user, now, v.slug)
    ensures v.shares == old(v.shares) && v.stars == old(v.stars) && v.blobs == old(v.blobs)
    ensures v.users == old(v.users) && v.nextSerial == old(v.nextSerial)
  {
    p := ParentOrRoot(v, parent, user, now);
    ghost var f := v.files;
    id := v.Append(Some(p), Folder(name), user, now);
    assert v.files - {id} == f;
  }

  // ---------------------------------------------------------------------
  // Uploads: `storeFiles`, `saveFileTree` and `saveFile`.

  /** An uploaded file: its client-side name, its MIME type and its bytes. */
  datatype Upload = Upload(name: string, mime: string, content: Bytes)

  /** A value of the nested `file_tree`: an uploaded file, or a folder with
      its name (the array key) and its items. */
  datatype UploadNode = FileNode(file: Upload) | FolderNode(name: string, items: seq<UploadNode>)

  /** The rows, ids, blobs and blob serials: the part of the vault an upload
      changes. */
  datatype Growth = Growth(files: Files, nextId: nat, blobs: map<BlobKey, Bytes>, nextSerial: nat)

  function GrowthOf(v: Vault): Growth
    reads v
  {
    Growth(v.files, v.nextId, v.blobs, v.nextSerial)
  }

  /** Ids and blob serials still to be handed out are unused. */
  ghost predicate Fresh(g: Growth) {
    Bounded(g.files, g.nextId) && forall k :: k in g.blobs ==> k.serial < g.nextSerial
  }

  /** The model `saveFile` fills in for upload `u` stored under `key`. */
  function UploadedFile(u: Upload, key: BlobKey): Entry {
    Unsaved(u.name, false, Regular, Some(u.mime), Some(|u.content|), Some(key), None)
  }

  /** How many rows an upload creates. */
  function NodeRows(n: UploadNode): nat
    decreases n
  {
    match n
    case FileNode(_) => 1
    case FolderNode(_, items) => 1 + ItemRows(items)
  }

  function ItemRows(items: seq<UploadNode>): nat
    decreases items
  {
    if items == [] then 0 else ItemRows(items[..|items| - 1]) + NodeRows(items[|items| - 1])
  }

  /** How many blobs an upload stores. */
  function NodeFiles(n: UploadNode): nat
    decreases n
  {
    match n
    case FileNode(_) => 1
    case FolderNode(_, items) => ItemFiles(items)
  }

  function ItemFiles(items: seq<UploadNode>): nat
    decreases items
  {
    if items == [] then 0 else ItemFiles(items[..|items| - 1]) + NodeFiles(items[|items| - 1])
  }

  /** Every row an upload adds belongs to `user`, is live, and hangs under
      `parent` or under a folder the same upload added before it; its path
      is the one the creating hook computes from that parent. */
  ghost predicate Planted(g: Growth, r: Growth, parent: Id, user: UserId, slug: string -> string) {
    forall c :: g.nextId <= c < r.nextId ==> PlantedRow(r, g.nextId, c, parent, user, slug)
  }

  /** Row `c` of `r` is one such row, for an upload that began at `first`. */
  ghost predicate PlantedRow(r: Growth, first: Id, c: Id, parent: Id, user: UserId, slug: string -> string) {
    && c in r.files
    && r.files[c].createdBy == user && IsLive(r.files[c])
    && r.files[c].parentId.Some?
    && var q := r.files[c].parentId.value;
       && q in r.files
       && (q == parent || (first <= q < c && r.files[q].isFolder))
       && r.files[c].path == HookPath(Some(r.files[q]), r.files[c].name, slug)
  }

  /** `r` is `g` with `rows` new rows and `serials` new blobs of `user`;
      every row and blob of `g` is kept as it was. */
  ghost predicate Extends(g: Growth, r: Growth, rows: nat, serials: nat, user: UserId) {
    && r.nextId == g.nextId + rows && r.nextSerial == g.nextSerial + serials
    && Keeps(g, r)
    && (forall c :: c in r.files <==> c in g.files || g.nextId <= c < r.nextId)
    && (forall k :: k in g.blobs ==> k in r.blobs && r.blobs[k] == g.blobs[k])
    && (forall k :: k in r.blobs <==> k in g.blobs || (k.owner == user && g.nextSerial <= k.serial < r.nextSerial))
  }

  /** The row a folder of the tree gets, and the growth after it. */
  function FolderStep(g: Growth, name: string, parent: Id, user: UserId, now: int, slug: string -> string): (r: Growth)
    requires parent in g.files && Fresh(g)
    ensures Fresh(r) && g.nextId in r.files
  {
    Growth(g.files[g.nextId := NewRow(Some(g.files[parent]), Some(parent), Folder(name), user, now, slug)],
           g.nextId + 1, g.blobs, g.nextSerial)
  }

  /** What saving one node under `parent` does: a file stores its blob and
      gets a row; a folder gets a row and its items are saved under it. */
  function PlantNode(g: Growth, n: UploadNode, parent: Id, user: UserId, now: int, slug: string -> string): (r: Growth)
    requires parent in g.files && Fresh(g)
    ensures Fresh(r) && forall c :: c in g.files ==> c in r.files
    decreases n
  {
    match n
    case FileNode(u) =>
      var key := BlobKey(user, g.nextSerial);
      var row := NewRow(Some(g.files[parent]), Some(parent), UploadedFile(u, key), user, now, slug);
      Growth(g.files[g.nextId := row], g.nextId + 1, g.blobs[key := u.content], g.nextSerial + 1)
    case FolderNode(name, items) =>
      PlantItems(FolderStep(g, name, parent, user, now, slug), items, g.nextId, user, now, slug)
  }

  /** What saving the items one after the other under `parent` does. */
  function PlantItems(g: Growth, items: seq<UploadNode>, parent: Id, user: UserId, now: int,
                      slug: string -> string): (r: Growth)
    requires parent in g.files && Fresh(g)
    ensures Fresh(r) && forall c :: c in g.files ==> c in r.files
    decreases items
  {
    if items == [] then g
    else PlantNode(PlantItems(g, items[..|items| - 1], parent, user, now, slug), items[|items| - 1], parent, user, now, slug)
  }

  /** Every row of `g` is in `r` unchanged. */
  ghost predicate Keeps(g: Growth, r: Growth) {
    g.nextId <= r.nextId && forall c :: c in g.files ==> c in r.files && r.files[c] == g.files[c]
  }

  lemma ExtendsTrans(g: Growth, m: Growth, r: Growth, a: nat, sa: nat, b: nat, sb: nat, user: UserId)
    requires Extends(g, m, a, sa, user) && Extends(m, r, b, sb, user)
    ensures Extends(g, r, a + b, sa + sb, user)
  {
  }

  /** A file node adds one row and one blob of the user. */
  lemma FileNodeExtends(g: Growth, u: Upload, parent: Id, user: UserId, now: int, slug: string -> string)
    requires parent in g.files && Fresh(g)
    ensures Extends(g, PlantNode(g, FileNode(u), parent, user, now, slug), 1, 1, user)
  {
  }

  /** A folder's own row is one row and no blob. */
  lemma FolderStepExtends(g: Growth, name: string, parent: Id, user: UserId, now: int, slug: string -> string)
    requires parent in g.files && Fresh(g)
    ensures Extends(g, FolderStep(g, name, parent, user, now, slug), 1, 0, user)
  {
  }

  /** Saving a node adds exactly its rows and its files' blobs and changes
      nothing that was there. */
  lemma {:induction false} NodeExtends(g: Growth, n: UploadNode, parent: Id, user: UserId, now: int, slug: string -> string)
    requires parent in g.files && Fresh(g)
    ensures Extends(g, PlantNode(g, n, parent, user, now, slug), NodeRows(n), NodeFiles(n), user)
    decreases n
  {
    match n
    case FileNode(u) =>
      FileNodeExtends(g, u, parent, user, now, slug);
    case FolderNode(name, items) =>
      var g1 := FolderStep(g, name, parent, user, now, slug);
      FolderStepExtends(g, name, parent, user, now, slug);
      ItemsExtends(g1, items, g.nextId, user, now, slug);
      ExtendsTrans(g, g1, PlantItems(g1, items, g.nextId, user, now, slug), 1, 0, ItemRows(items), ItemFiles(items), user);
  }

  lemma {:induction false} ItemsExtends(g: Growth, items: seq<UploadNode>, parent: Id, user: UserId, now: int,
                                        slug: string -> string)
    requires parent in g.files && Fresh(g)
    ensures Extends(g, PlantItems(g, items, parent, user, now, slug), ItemRows(items), ItemFiles(items), user)
    decreases items
  {
    if items != [] {
      var last := items[|items| - 1];
      var g1 := PlantItems(g, items[..|items| - 1], parent, user, now, slug);
      ItemsExtends(g, items[..|items| - 1], parent, user, now, slug);
      NodeExtends(g1, last, parent, user, now, slug);
      ExtendsTrans(g, g1, PlantNode(g1, last, parent, user, now, slug),
                   ItemRows(items[..|items| - 1]), ItemFiles(items[..|items| - 1]), NodeRows(last), NodeFiles(last), user);
    }
  }

  lemma PlantedTrans(g: Growth, m: Growth, r: Growth, parent: Id, user: UserId, slug: string -> string)
    requires g.nextId <= m.nextId && Keeps(m, r)
    requires Planted(g, m, parent, user, slug) && Planted(m, r, parent, user, slug)
    ensures Planted(g, r, parent, user, slug)
  {
    forall c | g.nextId <= c < r.nextId ensures PlantedRow(r, g.nextId, c, parent, user, slug) {
      if c < m.nextId {
        assert PlantedRow(m, g.nextId, c, parent, user, slug);
        var q := m.files[c].parentId.value;
        assert r.files[c] == m.files[c] && r.files[q] == m.files[q];
      } else {
        assert PlantedRow(r, m.nextId, c, parent, user, slug);
      }
    }
  }

  lemma PlantedUnderFolder(g: Growth, name: string, r: Growth, parent: Id, user: UserId, now: int, slug: string -> string)
    requires parent in g.files && Fresh(g)
    requires Keeps(FolderStep(g, name, parent, user, now, slug), r)
    requires Planted(FolderStep(g, name, parent, user, now, slug), r, g.nextId, user, slug)
    ensures Planted(g, r, parent, user, slug)
  {
    var g1 := FolderStep(g, name, parent, user, now, slug);
    assert r.files[g.nextId] == g1.files[g.nextId];
    assert r.files[parent] == g.files[parent];
    forall c | g.nextId <= c < r.nextId ensures PlantedRow(r, g.nextId, c, parent, user, slug) {
      if c != g.nextId {
        assert PlantedRow(r, g1.nextId, c, g.nextId, user, slug);
      }
    }
  }

  /** Every row a node's upload adds belongs to the user, is live, and hangs
      under `parent` or under a folder of the same upload, with the path the
      creating hook gives it. */
  lemma {:induction false} NodePlanted(g: Growth, n: UploadNode, parent: Id, user: UserId, now: int, slug: string -> string)
    requires parent in g.files && Fresh(g)
    ensures Planted(g, PlantNode(g, n, parent, user, now, slug), parent, user, slug)
    decreases n
  {
    match n
    case FileNode(u) =>
    case FolderNode(name, items) =>
      var g1 := FolderStep(g, name, parent, user, now, slug);
      ItemsExtends(g1, items, g.nextId, user, now, slug);
      ItemsPlanted(g1, items, g.nextId, user, now, slug);
      PlantedUnderFolder(g, name, PlantItems(g1, items, g.nextId, user, now, slug), parent, user, now, slug);
  }

  lemma {:induction false} ItemsPlanted(g: Growth, items: seq<UploadNode>, parent: Id, user: UserId, now: int,
                                        slug: string -> string)
    requires parent in g.files && Fresh(g)
    ensures Planted(g, PlantItems(g, items, parent, user, now, slug), parent, user, slug)
    decreases items
  {
    if items != [] {
      var last := items[|items| - 1];
      var g1 := PlantItems(g, items[..|items| - 1], parent, user, now, slug);
      ItemsExtends(g, items[..|items| - 1], parent, user, now, slug);
      ItemsPlanted(g, items[..|items| - 1], parent, user, now, slug);
      NodeExtends(g1, last, parent, user, now, slug);
      NodePlanted(g1, last, parent, user, now, slug);
      PlantedTrans(g, g1, PlantNode(g1, last, parent, user, now, slug), parent, user, slug);
    }
  }

  /** `saveFile`: store the bytes under the user's directory, then append
      the row under `parent`. */
  method SaveFile(v: Vault, u: Upload, parent: Id, user: UserId, now: int) returns (id: Id)
    requires v.Valid() && parent in v.files
    modifies v
    ensures v.Valid()
    ensures id == old(v.nextId)
    ensures GrowthOf(v) == PlantNode(old(GrowthOf(v)), FileNode(u), parent, user, now, v.slug)
    ensures v.shares == old(v.shares) && v.stars == old(v.stars) && v.users == old(v.users)
  {
    var key := v.StoreBlob(user, u.content);
    id := v.Append(Some(parent), UploadedFile(u, key), user, now);
  }

  /** One item of `saveFileTree`: a folder row and its items under it, or
      a file saved with `saveFile`. */
  method SaveNode(v: Vault, n: UploadNode, parent: Id, user: UserId, now: int)
    requires v.Valid() && parent in v.files
    modifies v
    ensures v.Valid()
    ensures GrowthOf(v) == PlantNode(old(GrowthOf(v)), n, parent, user, now, v.slug)
    ensures v.shares == old(v.shares) && v.stars == old(v.stars) && v.users == old(v.users)
    decreases n, 0
  {
    match n {
      case FileNode(u) =>
        var _ := SaveFile(v, u, parent, user, now);
      case FolderNode(name, items) =>
        SaveFolder(v, name, items, parent, user, now);
    }
  }

  lemma PlantFolder(g: Growth, name: string, items: seq<UploadNode>, parent: Id, user: UserId, now: int,
                    slug: string -> string)
    requires parent in g.files && Fresh(g)
    ensures PlantNode(g, FolderNode(name, items), parent, user, now, slug)
         == PlantItems(FolderStep(g, name, parent, user, now, slug), items, g.nextId, user, now, slug)
  {
  }

  /** A folder of the tree: its row under `parent`, then its items under it. */
  method SaveFolder(v: Vault, name: string, items: seq<UploadNode>, parent: Id, user: UserId, now: int)
    requires v.Valid() && parent in v.files
    modifies v
    ensures v.Valid()
    ensures GrowthOf(v) == PlantNode(old(GrowthOf(v)), FolderNode(name, items), parent, user, now, v.slug)
    ensures v.shares == old(v.shares) && v.stars == old(v.stars) && v.users == old(v.users)
    decreases items, 1
  {
    ghost var g := GrowthOf(v);
    PlantFolder(g, name, items, parent, user, now, v.slug);
    var folder := v.Append(Some(parent), Folder(name), user, now);
    assert GrowthOf(v) == FolderStep(g, name, parent, user, now, v.slug);
    SaveFileTree(v, items, folder, user, now);
  }

  /** `saveFileTree`: the items one after the other under `parent`. */
  method SaveFileTree(v: Vault, tree: seq<UploadNode>, parent: Id, user: UserId, now: int)
    requires v.Valid() && parent in v.files
    modifies v
    ensures v.Valid()
    ensures GrowthOf(v) == PlantItems(old(GrowthOf(v)), tree, parent, user, now, v.slug)
    ensures v.shares == old(v.shares) && v.stars == old(v.stars) && v.users == old(v.users)
    decreases tree, 0
  {
    ghost var g0 := GrowthOf(v);
    var i := 0;
    while i < |tree|
      invariant 0 <= i <= |tree|
      invariant v.Valid() && parent in v.files
      invariant GrowthOf(v) == PlantItems(g0, tree[..i], parent, user, now, v.slug)
      invariant v.shares == old(v.shares) && v.stars == old(v.stars) && v.users == old(v.users)
    {
      assert tree[..i + 1][..i] == tree[..i];
      SaveNode(v, tree[i], parent, user, now);
      i := i + 1;
    }
    assert tree[..i] == tree;
  }

  /** The flat `files` list of an upload as tree items. */
  function AsNodes(uploads: seq<Upload>): (r: seq<UploadNode>)
    ensures |r| == |uploads| && forall i :: 0 <= i < |r| ==> r[i] == FileNode(uploads[i])
  {
    if uploads == [] then [] else AsNodes(uploads[..|uploads| - 1]) + [FileNode(uploads[|uploads| - 1])]
  }

  /** The flat branch of `storeFiles`: every upload saved under `p`. */
  method SaveFiles(v: Vault, uploads: seq<Upload>, p: Id, user: UserId, now: int)
    requires v.Valid() && p in v.files
    modifies v
    ensures v.Valid()
    ensures GrowthOf(v) == PlantItems(old(GrowthOf(v)), AsNodes(uploads), p, user, now, v.slug)
    ensures v.shares == old(v.shares) && v.stars == old(v.stars) && v.users == old(v.users)
  {
    ghost var g0 := GrowthOf(v);
    var i := 0;
    while i < |uploads|
      invariant 0 <= i <= |uploads|
      invariant v.Valid() && p in v.files
      invariant GrowthOf(v) == PlantItems(g0, AsNodes(uploads[..i]), p, user, now, v.slug)
      invariant v.shares == old(v.shares) && v.stars == old(v.stars) && v.users == old(v.users)
    {
      assert AsNodes(uploads[..i + 1])[..i] == AsNodes(uploads[..i]);
      var _ := SaveFile(v, uploads[i], p, user, now);
      i := i + 1;
    }
    assert uploads[..i] == uploads;
  }

  /** `storeFiles`: the nested tree when one was sent, otherwise the flat
      list, under the given parent or the user's root. */
  method StoreFiles(v: Vault, parent: Option<Id>, tree: seq<UploadNode>, uploads: seq<Upload>, user: UserId,
                    now: int) returns (p: Id)
    requires v.Valid() && user in v.users
    requires parent.Some? ==> parent.value in v.files
    modifies v
    ensures v.Valid()
    ensures parent.Some? ==> p == parent.value
    ensures var g := if parent.Some? then old(GrowthOf(v))
                     else Growth(WithRoot(old(v.files), old(v.nextId), user, old(v.users[user].email), now, v.slug),
                                 NextAfterRoot(old(v.files), old(v.nextId), user), old(v.blobs), old(v.nextSerial));
      p in g.files && Fresh(g) &&
      GrowthOf(v) == PlantItems(g, if tree != [] then tree else AsNodes(uploads), p, user, now, v.slug)
    ensures v.shares == old(v.shares) && v.stars == old(v.stars) && v.users == old(v.users)
  {
    p := ParentOrRoot(v, parent, user, now);
    if tree != [] {
      SaveFileTree(v, tree, p, user, now);
    } else {
      SaveFiles(v, uploads, p, user, now);
    }
  }

  // ---------------------------------------------------------------------
  // `destroy`: move to the trash.

  /** The state after a run of `File::find($id)->moveToTrash()` and whether
      it got through: `find` sees live rows only, and the first id it does
      not find stops the run with an error, leaving the earlier ones
      trashed. */
  datatype Run = Run(files: Files, ok: bool)

  function TrashIds(f: Files, ids: seq<Id>, now: int): (r: Run)
    ensures r.files.Keys == f.Keys
    ensures forall c :: c in f && c !in ids ==> r.files[c] == f[c]
    ensures forall c :: c in f && c in ids ==> r.files[c] == f[c] || r.files[c] == Trashed(f[c], now)
    decreases |ids|
  {
    if ids == [] then Run(f, true)
    else
      var p := TrashIds(f, ids[..|ids| - 1], now);
      var x := ids[|ids| - 1];
      if !p.ok then p
      else if x in p.files && IsLive(p.files[x]) then
        assert p.files[x] == f[x];
        Run(p.files[x := Trashed(p.files[x], now)], true)
      else Run(p.files, false)
  }

  /** A run that gets through has trashed every id it was given. */
  lemma {:induction false} TrashIdsTrashes(f: Files, ids: seq<Id>, now: int)
    requires TrashIds(f, ids, now).ok
    ensures forall x :: x in ids ==> x in f && TrashIds(f, ids, now).files[x] == Trashed(f[x], now)
    decreases |ids|
  {
    if ids != [] {
      var init := ids[..|ids| - 1];
      TrashIdsTrashes(f, init, now);
      forall x | x in ids
        ensures x in f && TrashIds(f, ids, now).files[x] == Trashed(f[x], now)
      {
        if x != ids[|ids| - 1] {
          assert x in init;
        }
      }
    }
  }

  lemma {:induction false} TrashIdsOkOnly(f: Files, ids: seq<Id>, now: int)
    requires TrashIds(f, ids, now).ok
    ensures Distinct(ids) && forall x :: x in ids ==> x in f && IsLive(f[x])
    decreases |ids|
  {
    if ids != [] {
      var init := ids[..|ids| - 1];
      var x := ids[|ids| - 1];
      var p := TrashIds(f, init, now);
      TrashIdsOkOnly(f, init, now);
      TrashIdsTrashes(f, init, now);
      assert x !in init;
      forall i, j | 0 <= i < j < |ids| ensures ids[i] != ids[j] {
        if j < |ids| - 1 {
          assert ids[i] == init[i] && ids[j] == init[j];
        } else {
          assert ids[i] in init;
        }
      }
      forall y | y in ids ensures y in f && IsLive(f[y]) {
        if y != x {
          assert y in init;
        }
      }
    }
  }

  lemma {:induction false} TrashIdsOkIf(f: Files, ids: seq<Id>, now: int)
    requires Distinct(ids) && forall x :: x in ids ==> x in f && IsLive(f[x])
    ensures TrashIds(f, ids, now).ok
    decreases |ids|
  {
    if ids != [] {
      var init := ids[..|ids| - 1];
      var x := ids[|ids| - 1];
      forall i, j | 0 <= i < j < |init| ensures init[i] != init[j] {
        assert init[i] == ids[i] && init[j] == ids[j];
      }
      TrashIdsOkIf(f, init, now);
    }
  }

  /** `destroy` by ids gets through exactly when the ids are distinct live
      rows: an id named twice is no longer found the second time. */
  lemma TrashIdsSucceeds(f: Files, ids: seq<Id>, now: int)
    ensures TrashIds(f, ids, now).ok <==> Distinct(ids) && forall x :: x in ids ==> x in f && IsLive(f[x])
  {
    if TrashIds(f, ids, now).ok {
      TrashIdsOkOnly(f, ids, now);
    }
    if Distinct(ids) && forall x :: x in ids ==> x in f && IsLive(f[x]) {
      TrashIdsOkIf(f, ids, now);
    }
  }

  /** `destroy`: with `all`, each live child of the folder is trashed (not
      its descendants: their rows stay as they are); otherwise the ids the
      request names, one after the other. */
  method Destroy(v: Vault, parent: Id, all: bool, ids: seq<Id>, now: int) returns (r: Reply)
    requires v.Valid()
    modifies v
    ensures v.Valid()
    ensures all && parent !in old(v.files) ==> r == Crash && v.files == old(v.files)
    ensures all && parent in old(v.files) ==> r == Redirect("myFiles", old(v.files[parent].path))
    ensures all ==> v.files.Keys == old(v.files).Keys
    ensures all ==> forall c :: c in old(v.files) ==>
      v.files[c] == if parent in old(v.files) && IsChild(old(v.files), c, parent, false)
                    then Trashed(old(v.files)[c], now) else old(v.files)[c]
    ensures !all ==> v.files == TrashIds(old(v.files), ids, now).files
    ensures !all ==> r == if TrashIds(old(v.files), ids, now).ok && parent in old(v.files)
                          then Redirect("myFiles", old(v.files[parent].path)) else Crash
    ensures v.shares == old(v.shares) && v.stars == old(v.stars) && v.blobs == old(v.blobs) && v.users == old(v.users)
    ensures v.nextId == old(v.nextId) && v.nextSerial == old(v.nextSerial)
  {
    if all {
      if parent !in v.files {
        return Crash;
      }
      var folder := v.files[parent].path;
      TrashChildren(v, parent, now);
      r := Redirect("myFiles", folder);
    } else {
      ghost var F := v.files;
      var ok := TrashEach(v, ids, now);
      if !ok || parent !in v.files {
        return Crash;
      }
      assert parent in F;
      assert v.files[parent].path == F[parent].path;
      r := Redirect("myFiles", v.files[parent].path);
    }
  }

  /** The `all` branch of `destroy`: every live child of `parent` is moved to the trash. */
  method TrashChildren(v: Vault, parent: Id, now: int)
    requires v.Valid() && parent in v.files
    modifies v
    ensures v.Valid() && v.files.Keys == old(v.files).Keys
    ensures forall c :: c in old(v.files) ==>
      v.files[c] == if IsChild(old(v.files), c, parent, false) then Trashed(old(v.files)[c], now) else old(v.files)[c]
    ensures v.shares == old(v.shares) && v.stars == old(v.stars) && v.blobs == old(v.blobs) && v.users == old(v.users)
    ensures v.nextId == old(v.nextId) && v.nextSerial == old(v.nextSerial)
  {
    var children := v.Children(parent);
    ghost var F := v.files;
    var i := 0;
    while i < |children|
      invariant 0 <= i <= |children|
      invariant v.Valid() && v.files.Keys == F.Keys
      invariant forall c :: c in F ==> v.files[c] == if c in children[..i] then Trashed(F[c], now) else F[c]
      invariant v.shares == old(v.shares) && v.stars == old(v.stars) && v.blobs == old(v.blobs) && v.users == old(v.users)
      invariant v.nextId == old(v.nextId) && v.nextSerial == old(v.nextSerial)
    {
      assert children[i] in children && children[i] !in children[..i];
      assert children[..i + 1] == children[..i] + [children[i]];
      v.MoveToTrash(children[i], now);
      i := i + 1;
    }
    assert children[..i] == children;
  }

  /** The ids branch of `destroy`: `find` each id and move it to the trash;
      `ok` is false when a `find` came back null. */
  method TrashEach(v: Vault, ids: seq<Id>, now: int) returns (ok: bool)
    requires v.Valid()
    modifies v
    ensures v.Valid()
    ensures ok == TrashIds(old(v.files), ids, now).ok && v.files == TrashIds(old(v.files), ids, now).files
    ensures v.shares == old(v.shares) && v.stars == old(v.stars) && v.blobs == old(v.blobs) && v.users == old(v.users)
    ensures v.nextId == old(v.nextId) && v.nextSerial == old(v.nextSerial)
  {
    ghost var F := v.files;
    var i := 0;
    while i < |ids|
      invariant 0 <= i <= |ids|
      invariant v.Valid() && v.files.Keys == F.Keys
      invariant TrashIds(F, ids[..i], now).ok && v.files == TrashIds(F, ids[..i], now).files
      invariant v.shares == old(v.shares) && v.stars == old(v.stars) && v.blobs == old(v.blobs) && v.users == old(v.users)
      invariant v.nextId == old(v.nextId) && v.nextSerial == old(v.nextSerial)
    {
      assert ids[..i + 1][..i] == ids[..i];
      if !(ids[i] in v.files && IsLive(v.files[ids[i]])) {
        StopsHere(F, ids, i, now);
        return false;
      }
      v.MoveToTrash(ids[i], now);
      i := i + 1;
    }
    assert ids[..i] == ids;
    ok := true;
  }

  /** A run that stops at position `i` stays stopped. */
  lemma {:induction false} StopsHere(f: Files, ids: seq<Id>, i: nat, now: int)
    requires i < |ids| && TrashIds(f, ids[..i], now).ok
    requires var p := TrashIds(f, ids[..i], now); !(ids[i] in p.files && IsLive(p.files[ids[i]]))
    ensures TrashIds(f, ids, now) == Run(TrashIds(f, ids[..i], now).files, false)
    decreases |ids|
  {
    assert ids[..i + 1][..i] == ids[..i];
    if i + 1 < |ids| {
      assert ids[..|ids| - 1][..i] == ids[..i];
      StopsHere(f, ids[..|ids| - 1], i, now);
    } else {
      assert ids[..i + 1] == ids;
    }
  }

  // ---------------------------------------------------------------------
  // `restore` and `deleteForever` on the trash.

  /** The rows a trash action works on: with `all`, every trashed row of
      the table (of every owner: the query has no owner filter); otherwise
      the trashed rows among the ids. */
  function TrashSelection(f: Files, all: bool, ids: seq<Id>, hi: nat): (r: seq<Id>)
    ensures forall c: Id :: c in r <==> c < hi && c in f && !IsLive(f[c]) && (all || c in ids)
    ensures forall i, j :: 0 <= i < j < |r| ==> r[i] < r[j]
  {
    Select(f, if all then AnyTrashed else TrashedIn(set x | x in ids), hi)
  }

  /** The table after `restore()` on each row of `sel`. */
  function RestoreRows(f: Files, sel: seq<Id>, now: int): (r: Files)
    ensures r.Keys == f.Keys
    ensures forall c :: c in f && c in sel ==> IsLive(r[c])
    ensures forall c :: c in f && c !in sel ==> r[c] == f[c]
  {
    map c | c in f :: if c in sel then Restored(f[c], now) else f[c]
  }

  /** Restoring all of the trash leaves nothing in it. */
  lemma RestoreAllEmptiesTrash(f: Files, hi: nat, now: int)
    requires Bounded(f, hi)
    ensures forall c: Id :: c !in TrashSelection(RestoreRows(f, TrashSelection(f, true, [], hi), now), true, [], hi)
  {
  }

  /** Restoring by ids leaves trashed exactly the rows that were trashed and
      not named. */
  lemma RestoreByIdsLeaves(f: Files, ids: seq<Id>, hi: nat, now: int)
    requires Bounded(f, hi)
    ensures var g := RestoreRows(f, TrashSelection(f, false, ids, hi), now);
      forall c: Id :: c in TrashSelection(g, true, [], hi) <==> c in f && !IsLive(f[c]) && c !in ids
  {
  }

  lemma RestoreRowsStep(f: Files, sel: seq<Id>, i: nat, now: int)
    requires i < |sel| && sel[i] in f
    requires forall a, b :: 0 <= a < b < |sel| ==> sel[a] < sel[b]
    ensures var g := RestoreRows(f, sel[..i], now);
      sel[i] in g && RestoreRows(f, sel[..i + 1], now) == g[sel[i] := Restored(g[sel[i]], now)]
  {
    assert sel[i] !in sel[..i];
    assert sel[..i + 1] == sel[..i] + [sel[i]];
  }

  /** `restore`: every selected row is restored; no other row changes. */
  method RestoreTrash(v: Vault, all: bool, ids: seq<Id>, now: int) returns (r: Reply)
    requires v.Valid()
    modifies v
    ensures v.Valid() && r == Redirect("trash", None)
    ensures v.files == RestoreRows(old(v.files), TrashSelection(old(v.files), all, ids, old(v.nextId)), now)
    ensures v.shares == old(v.shares) && v.stars == old(v.stars) && v.blobs == old(v.blobs) && v.users == old(v.users)
    ensures v.nextId == old(v.nextId) && v.nextSerial == old(v.nextSerial)
  {
    var sel := TrashSelection(v.files, all, ids, v.nextId);
    ghost var F := v.files;
    var i := 0;
    while i < |sel|
      invariant 0 <= i <= |sel|
      invariant v.Valid() && v.files == RestoreRows(F, sel[..i], now)
      invariant v.shares == old(v.shares) && v.stars == old(v.stars) && v.blobs == old(v.blobs) && v.users == old(v.users)
      invariant v.nextId == old(v.nextId) && v.nextSerial == old(v.nextSerial)
    {
      RestoreRowsStep(F, sel, i, now);
      v.Restore(sel[i], now);
      i := i + 1;
    }
    assert sel[..i] == sel;
    r := Redirect("trash", None);
  }

  /** What a bulk `deleteForever` removes is exactly the rows whose walk up
      through folders meets a selected row. */
  lemma {:induction false} PurgedExactly(f: Files, sel: seq<Id>)
    ensures forall c :: c in f - UnionSubtrees(f, sel, true) <==> c in f && forall k :: k in sel ==> !Reaches(f, c, k, true)
  {
    forall c ensures c in f - UnionSubtrees(f, sel, true) <==> c in f && forall k :: k in sel ==> !Reaches(f, c, k, true) {
      UnionSubtreesMembers(f, sel, c, true);
    }
  }

  /** `deleteForever` on the trash: each selected row with what lies below
      it, trashed or not, its shares, stars and blobs. */
  method DeleteTrashForever(v: Vault, all: bool, ids: seq<Id>) returns (r: Reply)
    requires v.Valid()
    modifies v
    ensures v.Valid() && r == Redirect("trash", None)
    ensures var gone := UnionSubtrees(old(v.files), TrashSelection(old(v.files), all, ids, old(v.nextId)), true);
      && v.files == old(v.files) - gone
      && v.shares == SharesWithout(old(v.shares), gone)
      && v.stars == StarsWithout(old(v.stars), gone)
      && v.blobs == old(v.blobs) - BlobKeysOf(old(v.files), gone)
    ensures v.users == old(v.users) && v.nextId == old(v.nextId) && v.nextSerial == old(v.nextSerial)
  {
    var sel := TrashSelection(v.files, all, ids, v.nextId);
    v.DeleteEachForever(sel, -1);
    r := Redirect("trash", None);
  }

  // ---------------------------------------------------------------------
  // `toggleFavourite`.

  /** Star `s` added when absent and removed when present. */
  function Toggled(stars: set<Star>, s: Star): (r: set<Star>)
    ensures s in r <==> s !in stars
    ensures forall t :: t != s ==> (t in r <==> t in stars)
  {
    if s in stars then stars - {s} else stars + {s}
  }

  /** Toggling twice gives the stars back. */
  lemma ToggleTwice(stars: set<Star>, s: Star)
    ensures Toggled(Toggled(stars, s), s) == stars
  {
  }

  /** `toggleFavourite`: `File::find` sees live rows only; a row it does not
      find ends the request with an error before anything changes. */
  method ToggleFavourite(v: Vault, id: Id, user: UserId) returns (r: Reply)
    requires v.Valid()
    modifies v
    ensures v.Valid()
    ensures id in old(v.files) && IsLive(old(v.files)[id]) ==> r == Back && v.stars == Toggled(old(v.stars), Star(id, user))
    ensures !(id in old(v.files) && IsLive(old(v.files)[id])) ==> r == Crash && v.stars == old(v.stars)
    ensures v.files == old(v.files) && v.shares == old(v.shares) && v.blobs == old(v.blobs) && v.users == old(v.users)
    ensures v.nextId == old(v.nextId) && v.nextSerial == old(v.nextSerial)
  {
    if !(id in v.files && IsLive(v.files[id])) {
      return Crash;
    }
    v.stars := Toggled(v.stars, Star(id, user));
    r := Back;
  }

  // ---------------------------------------------------------------------
  // `share`.

  const NoShareSelection := "Please select at least file or folder to share."

  lemma MinExists(s: set<nat>)
    requires s != {}
    ensures exists m :: m in s && forall x :: x in s ==> m <= x
    decreases s
  {
    var y :| y in s;
    var rest := s - {y};
    if rest != {} {
      MinExists(rest);
      var m :| m in rest && forall x :: x in rest ==> m <= x;
      var lo := if y < m then y else m;
      forall x | x in s ensures lo <= x {
        if x != y {
          assert x in rest;
        }
      }
      assert lo in s;
    } else {
      assert s == {y};
    }
  }

  function MinOf(s: set<nat>): (m: nat)
    requires s != {}
    ensures m in s && forall x :: x in s ==> m <= x
  {
    MinExists(s);
    var m :| m in s && forall x :: x in s ==> m <= x;
    m
  }

  /** `User::where('email', ...)->first()`: the first user, by id, with
      that address. */
  function UserByEmail(users: map<UserId, User>, email: string): (r: Option<UserId>)
    ensures r.Some? ==> r.value in users && users[r.value].email == email
    ensures r.Some? ==> forall u :: u in users && users[u].email == email ==> r.value <= u
    ensures r.None? ==> forall u :: u in users ==> users[u].email != email
  {
    var found := set u | u in users && users[u].email == email;
    assert forall u :: u in users ==> (u in found <==> users[u].email == email);
    if found == {} then None else Some(MinOf(found))
  }

  /** The files a share request names: the folder's live children with
      `all`, otherwise the live rows among the ids. */
  function ShareSelection(f: Files, parent: Id, all: bool, ids: seq<Id>, hi: nat): (r: seq<Id>)
    ensures all ==> forall c :: c in r <==> parent < c < hi && IsChild(f, c, parent, false)
    ensures !all ==> forall c: Id :: c in r <==> c < hi && c in f && IsLive(f[c]) && c in ids
    ensures forall i, j :: 0 <= i < j < |r| ==> r[i] < r[j]
  {
    if all then ChildIds(f, parent, hi, false) else Select(f, LiveIn(set x | x in ids), hi)
  }

  /** File `c` is shared with user `t` already. */
  predicate SharedWith(shares: seq<ShareRow>, c: Id, t: UserId) {
    exists s :: s in shares && s.fileId == c && s.userId == t
  }

  /** The rows `share` inserts: one per selected file, in order, except the
      files already shared with the target. */
  function NewShares(shares: seq<ShareRow>, sel: seq<Id>, t: UserId, now: int): (r: seq<ShareRow>)
    ensures forall row :: row in r <==> row.fileId in sel && row.userId == t && row.createdAt == now && !SharedWith(shares, row.fileId, t)
    ensures Distinct(sel) ==> forall i, j :: 0 <= i < j < |r| ==> r[i].fileId != r[j].fileId
    ensures |r| <= |sel|
    decreases |sel|
  {
    if sel == [] then []
    else
      var init := sel[..|sel| - 1];
      var c := sel[|sel| - 1];
      var r := NewShares(shares, init, t, now);
      assert sel == init + [c];
      assert Distinct(sel) ==> Distinct(init) && c !in init by {
        if Distinct(sel) {
          forall i, j | 0 <= i < j < |init| ensures init[i] != init[j] {
            assert init[i] == sel[i] && init[j] == sel[j];
          }
        }
      }
      if SharedWith(shares, c, t) then r
      else
        assert forall row :: row in r ==> row.fileId in init;
        r + [ShareRow(c, t, now)]
  }

  /** No file is shared twice with the same user. */
  predicate PairsUnique(shares: seq<ShareRow>) {
    forall i, j :: 0 <= i < j < |shares| ==> !(shares[i].fileId == shares[j].fileId && shares[i].userId == shares[j].userId)
  }

  /** `share` keeps (file, user) pairs unique. */
  lemma ShareKeepsPairsUnique(shares: seq<ShareRow>, sel: seq<Id>, t: UserId, now: int)
    requires PairsUnique(shares) && Distinct(sel)
    ensures PairsUnique(shares + NewShares(shares, sel, t, now))
  {
    var add := NewShares(shares, sel, t, now);
    var all := shares + add;
    forall i, j | 0 <= i < j < |all|
      ensures !(all[i].fileId == all[j].fileId && all[i].userId == all[j].userId)
    {
      if j >= |shares| {
        assert all[j] == add[j - |shares|] && add[j - |shares|] in add;
        if i < |shares| {
          assert all[i] in shares;
        } else {
          assert all[i] == add[i - |shares|];
        }
      }
    }
  }

  /** Sharing the same selection again inserts nothing (and sends no mail). */
  lemma ShareAgainAddsNothing(shares: seq<ShareRow>, sel: seq<Id>, t: UserId, now: int, later: int)
    ensures forall row :: row !in NewShares(shares + NewShares(shares, sel, t, now), sel, t, later)
  {
    var s1 := shares + NewShares(shares, sel, t, now);
    forall c | c in sel ensures SharedWith(s1, c, t) {
      if SharedWith(shares, c, t) {
        var s :| s in shares && s.fileId == c && s.userId == t;
        assert s in s1;
      } else {
        assert ShareRow(c, t, now) in s1;
      }
    }
  }

  /** The loop of `share` that builds the rows to insert. */
  method CollectShares(shares: seq<ShareRow>, sel: seq<Id>, t: UserId, now: int) returns (add: seq<ShareRow>)
    ensures add == NewShares(shares, sel, t, now)
  {
    add := [];
    var i := 0;
    while i < |sel|
      invariant 0 <= i <= |sel|
      invariant add == NewShares(shares, sel[..i], t, now)
    {
      assert sel[..i + 1][..i] == sel[..i];
      if !SharedWith(shares, sel[i], t) {
        add := add + [ShareRow(sel[i], t, now)];
      }
      i := i + 1;
    }
    assert sel[..i] == sel;
  }

  /** `share`: an unknown address goes back with no change; an empty
      selection without `all` answers with a message; otherwise the new
      rows are inserted and the target is mailed when there were any. */
  method Share(v: Vault, parent: Id, all: bool, ids: seq<Id>, email: string, now: int)
    returns (r: Reply, mailTo: Option<UserId>)
    requires v.Valid()
    modifies v
    ensures v.Valid()
    ensures UserByEmail(old(v.users), email).None? ==> r == Back && mailTo == None && v.shares == old(v.shares)
    ensures UserByEmail(old(v.users), email).Some? && !all && ids == [] ==>
      r == Message(NoShareSelection) && mailTo == None && v.shares == old(v.shares)
    ensures UserByEmail(old(v.users), email).Some? && all && parent !in old(v.files) ==>
      r == Crash && mailTo == None && v.shares == old(v.shares)
    ensures UserByEmail(old(v.users), email).Some? && ((all && parent in old(v.files)) || (!all && ids != [])) ==>
      var t := UserByEmail(old(v.users), email).value;
      var add := NewShares(old(v.shares), ShareSelection(old(v.files), parent, all, ids, old(v.nextId)), t, now);
      r == Back && v.shares == old(v.shares) + add && mailTo == (if add != [] then Some(t) else None)
    ensures v.files == old(v.files) && v.stars == old(v.stars) && v.blobs == old(v.blobs) && v.users == old(v.users)
    ensures v.nextId == old(v.nextId) && v.nextSerial == old(v.nextSerial)
  {
    var target := UserByEmail(v.users, email);
    if target.None? {
      return Back, None;
    }
    if !all && ids == [] {
      return Message(NoShareSelection), None;
    }
    if all && parent !in v.files {
      return Crash, None;
    }
    var sel := ShareSelection(v.files, parent, all, ids, v.nextId);
    var add := CollectShares(v.shares, sel, target.value, now);
    mailTo := None;
    if add != [] {
      v.shares := v.shares + add;
      mailTo := target;
    }
    r := Back;
  }

  // ---------------------------------------------------------------------
  // Notes: `storeNote`, `updateNote`, `deleteNote`, `downloadNote`.

  const Unauthorized := "Unauthorized action."
  const NotANote := "This is not a note."
  const FileNotFound := "File not found."

  /** Route-model binding and `findOrFail` see live rows only; a row they
      do not find ends the request with 404. */
  const NotFound := Abort(404, "")

  /** The model `storeNote` fills in: a note with its text as content, the
      byte length as size and a plain-text MIME type. */
  function NoteEntry(name: string, content: Bytes): (e: Entry)
    ensures e.kind == Note && !e.isFolder && e.storagePath.None?
    ensures e.noteContent == Some(content) && e.size == Some(|content|) && e.mime == Some("text/plain")
  {
    Unsaved(name, false, Note, Some("text/plain"), Some(|content|), None, Some(content))
  }

  /** The checks `updateNote`, `deleteNote` and `downloadNote` make before
      anything else, in their order: the row is bound, the user owns it,
      it is a note. */
  function NoteGuard(f: Files, id: Id, user: UserId): (r: Option<Reply>)
    ensures r.None? <==> id in f && IsLive(f[id]) && IsOwnedBy(f[id], user) && f[id].kind == Note
    ensures !(id in f && IsLive(f[id])) ==> r == Some(NotFound)
    ensures id in f && IsLive(f[id]) && !IsOwnedBy(f[id], user) ==> r == Some(Abort(403, Unauthorized))
    ensures id in f && IsLive(f[id]) && IsOwnedBy(f[id], user) && f[id].kind != Note ==> r == Some(Abort(400, NotANote))
  {
    if !(id in f && IsLive(f[id])) then Some(NotFound)
    else if !IsOwnedBy(f[id], user) then Some(Abort(403, Unauthorized))
    else if f[id].kind != Note then Some(Abort(400, NotANote))
    else None
  }

  /** `downloadNote`: the note's text as `<name>.txt` (empty when null). */
  function DownloadNote(f: Files, id: Id, user: UserId): (r: Reply)
    ensures NoteGuard(f, id, user).Some? ==> r == NoteGuard(f, id, user).value
    ensures r.Stream? ==> NoteGuard(f, id, user).None? && r.filename == f[id].name + ".txt"
    ensures NoteGuard(f, id, user).None? ==> r.Stream? && r.content == f[id].noteContent.GetOr([])
  {
    match NoteGuard(f, id, user)
    case Some(stop) => stop
    case None => Stream(f[id].name + ".txt", f[id].noteContent.GetOr([]))
  }

  /** The row `updateNote` saves: new name, content and size; the path of
      an existing row is not recomputed. */
  function NoteEdited(e: Entry, name: string, content: Bytes, now: int): (r: Entry)
    ensures r.kind == e.kind && r.createdBy == e.createdBy && r.parentId == e.parentId && r.path == e.path
    ensures r.deletedAt == e.deletedAt && r.name == name && r.noteContent == Some(content) && r.size == Some(|content|)
  {
    e.(name := name, noteContent := Some(content), size := Some(|content|), updatedAt := now)
  }

  /** A note downloads with the content it was stored with. */
  lemma StoredNoteDownloads(f: Files, id: Id, parentRow: Option<Entry>, parent: Option<Id>, name: string,
                            content: Bytes, user: UserId, now: int, slug: string -> string)
    requires id in f && f[id] == NewRow(parentRow, parent, NoteEntry(name, content), user, now, slug)
    ensures DownloadNote(f, id, user) == Stream(name + ".txt", content)
  {
  }

  /** After an edit, the owner downloads the new content under the new name. */
  lemma EditedNoteDownloads(f: Files, id: Id, user: UserId, name: string, content: Bytes, now: int)
    requires NoteGuard(f, id, user).None?
    ensures DownloadNote(f[id := NoteEdited(f[id], name, content, now)], id, user) == Stream(name + ".txt", content)
  {
  }

  /** Nobody but the owner gets a note's text from `downloadNote`. */
  lemma OnlyOwnerDownloads(f: Files, id: Id, user: UserId)
    requires DownloadNote(f, id, user).Stream?
    ensures id in f && f[id].createdBy == user && f[id].kind == Note
  {
  }

  /** `storeNote`: a truthy `parent_id` must name a live row (404
      otherwise); without one the note goes under the user's root. */
  method StoreNote(v: Vault, parentId: Option<Id>, name: string, content: Bytes, user: UserId, now: int)
    returns (r: Reply, note: Option<Id>)
    requires v.Valid() && user in v.users
    modifies v
    ensures v.Valid()
    ensures note.Some? <==> r == Back
    ensures r != Back ==> r == NotFound && v.files == old(v.files) && v.nextId == old(v.nextId)
    ensures r == NotFound <==> parentId.Some? && parentId.value != 0 &&
                               !(parentId.value in old(v.files) && IsLive(old(v.files)[parentId.value]))
    ensures note.Some? ==> note.value == v.nextId - 1 && note.value in v.files && v.files[note.value].parentId.Some?
    ensures note.Some? ==> var p := v.files[note.value].parentId.value;
      && p in v.files && p != note.value
      && v.files[note.value] == NewRow(Some(v.files[p]), Some(p), NoteEntry(name, content), user, now, v.slug)
      && (parentId.Some? && parentId.value != 0 ==> p == parentId.value && v.files - {note.value} == old(v.files))
      && (!(parentId.Some? && parentId.value != 0) ==>
            v.files - {note.value} == WithRoot(old(v.files), old(v.nextId), user, old(v.users[user].email), now, v.slug))
    ensures note.Some? ==> DownloadNote(v.files, note.value, user) == Stream(name + ".txt", content)
    ensures v.shares == old(v.shares) && v.stars == old(v.stars) && v.blobs == old(v.blobs) && v.users == old(v.users)
    ensures v.nextSerial == old(v.nextSerial)
  {
    var truthy := parentId.Some? && parentId.value != 0;
    if truthy && !(parentId.value in v.files && IsLive(v.files[parentId.value])) {
      return NotFound, None;
    }
    var p := ParentOrRoot(v, if truthy then parentId else None, user, now);
    ghost var before := v.files;
    var id := v.Append(Some(p), NoteEntry(name, content), user, now);
    assert v.files - {id} == before;
    note := Some(id);
    r := Back;
  }

  /** `updateNote`: after the checks, the note gets its new name and text. */
  method UpdateNote(v: Vault, id: Id, user: UserId, name: string, content: Bytes, now: int) returns (r: Reply)
    requires v.Valid()
    modifies v
    ensures v.Valid()
    ensures NoteGuard(old(v.files), id, user).Some? ==> r == NoteGuard(old(v.files), id, user).value && v.files == old(v.files)
    ensures NoteGuard(old(v.files), id, user).None? ==>
      r == Back && v.files == old(v.files)[id := NoteEdited(old(v.files)[id], name, content, now)]
    ensures v.shares == old(v.shares) && v.stars == old(v.stars) && v.blobs == old(v.blobs) && v.users == old(v.users)
    ensures v.nextId == old(v.nextId) && v.nextSerial == old(v.nextSerial)
  {
    var stop := NoteGuard(v.files, id, user);
    if stop.Some? {
      return stop.value;
    }
    v.files := v.files[id := NoteEdited(v.files[id], name, content, now)];
    r := Back;
  }

  /** `deleteNote`: after the checks, the note goes to the trash. */
  method DeleteNote(v: Vault, id: Id, user: UserId, now: int) returns (r: Reply)
    requires v.Valid()
    modifies v
    ensures v.Valid()
    ensures NoteGuard(old(v.files), id, user).Some? ==> r == NoteGuard(old(v.files), id, user).value && v.files == old(v.files)
    ensures NoteGuard(old(v.files), id, user).None? ==>
      r == Back && v.files == old(v.files)[id := Trashed(old(v.files)[id], now)]
    ensures v.shares == old(v.shares) && v.stars == old(v.stars) && v.blobs == old(v.blobs) && v.users == old(v.users)
    ensures v.nextId == old(v.nextId) && v.nextSerial == old(v.nextSerial)
  {
    var stop := NoteGuard(v.files, id, user);
    if stop.Some? {
      return stop.value;
    }
    v.MoveToTrash(id, now);
    r := Back;
  }

  /** A deleted note is no longer found by the note routes. */
  lemma DeletedNoteNotFound(f: Files, id: Id, user: UserId, other: UserId, now: int)
    requires NoteGuard(f, id, user).None?
    ensures NoteGuard(f[id := Trashed(f[id], now)], id, other) == Some(NotFound)
  {
  }

  // ---------------------------------------------------------------------
  // `previewFile`.

  /** The owner, or a user the row is shared with. */
  predicate HasAccess(f: Files, shares: seq<ShareRow>, id: Id, user: UserId)
    requires id in f
  {
    IsOwnedBy(f[id], user) || SharedWith(shares, id, user)
  }

  /** `previewFile` as intended: a note's text, or a link to a stored file
      (the model gives its blob key), or 404 when neither. */
  function PreviewFile(f: Files, shares: seq<ShareRow>, id: Id, user: UserId): (r: Reply)
    ensures r.NotePreview? || r.FilePreview? ==> id in f && IsLive(f[id]) && HasAccess(f, shares, id, user)
    ensures r.NotePreview? <==> id in f && IsLive(f[id]) && HasAccess(f, shares, id, user) && f[id].kind == Note
    ensures r.FilePreview? <==> id in f && IsLive(f[id]) && HasAccess(f, shares, id, user) && f[id].kind != Note
                                && f[id].storagePath.Some?
    ensures r.NotePreview? ==> r == NotePreview(f[id].name, f[id].noteContent.GetOr([]))
    ensures r.FilePreview? ==> r == FilePreview(f[id].name, f[id].mime, f[id].storagePath.value)
    ensures !(r.NotePreview? || r.FilePreview?) ==> r.Abort?
  {
    if !(id in f && IsLive(f[id])) then NotFound
    else if !HasAccess(f, shares, id, user) then Abort(403, Unauthorized)
    else if f[id].kind == Note then NotePreview(f[id].name, f[id].noteContent.GetOr([]))
    else if f[id].storagePath.Some? then FilePreview(f[id].name, f[id].mime, f[id].storagePath.value)
    else Abort(404, FileNotFound)
  }

  /** `previewFile` as written: `Storage` is not imported into the
      controller's namespace, so the stored-file branch names a class that
      does not exist; the error this raises is not an `\Exception`, and the
      `catch` around it does not apply. */
  function PreviewFileAsWritten(f: Files, shares: seq<ShareRow>, id: Id, user: UserId): (r: Reply)
    ensures r.FilePreview? == false
    ensures r != PreviewFile(f, shares, id, user) ==> r == Crash && PreviewFile(f, shares, id, user).FilePreview?
  {
    if !(id in f && IsLive(f[id])) then NotFound
    else if !HasAccess(f, shares, id, user) then Abort(403, Unauthorized)
    else if f[id].kind == Note then NotePreview(f[id].name, f[id].noteContent.GetOr([]))
    else if f[id].storagePath.Some? then Crash
    else Abort(404, FileNotFound)
  }

  /** As written, no stored file can be previewed: every request that the
      intended code answers with a link fails. */
  lemma PreviewOfStoredFileFails(f: Files, shares: seq<ShareRow>, id: Id, user: UserId)
    requires PreviewFile(f, shares, id, user).FilePreview?
    ensures PreviewFileAsWritten(f, shares, id, user) == Crash
  {
  }

  /** A concrete request: the owner of an uploaded file previews it. */
  lemma PreviewFailsForOwner()
    ensures var e := NewRow(None, None, Unsaved("a.pdf", false, Regular, Some("application/pdf"), Some(3),
                                                Some(BlobKey(1, 0)), None), 1, 0, s => s);
      && PreviewFile(map[1 := e], [], 1, 1) == FilePreview("a.pdf", Some("application/pdf"), BlobKey(1, 0))
      && PreviewFileAsWritten(map[1 := e], [], 1, 1) == Crash
  {
  }

  /** A note the user both owns and can download previews with the same text. */
  lemma NotePreviewMatchesDownload(f: Files, shares: seq<ShareRow>, id: Id, user: UserId)
    requires NoteGuard(f, id, user).None?
    ensures PreviewFile(f, shares, id, user) == NotePreview(f[id].name, DownloadNote(f, id, user).content)
  {
  }
}
