/** Pure queries over the `files` table (a map from id to row): the
    predicates of the File model, the creating hook's path, the children
    of a row, and the set of rows a permanent delete removes. */
module Tree {
  import opened Types

  type Files = map<Id, Entry>

  /** `isRoot`: the row has no parent. */
  predicate IsRoot(e: Entry) {
    e.parentId.None?
  }

  /** `isOwnedBy`: the row was created by `user`. */
  predicate IsOwnedBy(e: Entry, user: UserId) {
    e.createdBy == user
  }

  /** The `creating` hook: a row created without a parent gets no path; a
      row created under the root gets the slug of its name; any other row
      gets its parent's path, a slash and the slug of its name. A null parent
      path concatenates as "" in PHP. */
  function HookPath(parent: Option<Entry>, name: string, slug: string -> string): (r: Option<string>)
    ensures r.None? <==> parent.None?
    ensures r.Some? ==> |r.value| >= |slug(name)| && r.value[|r.value| - |slug(name)|..] == slug(name)
  {
    match parent
    case None => None
    case Some(p) => Some((if IsRoot(p) then "" else p.path.GetOr("") + "/") + slug(name))
  }

  /** Every id is below `bound` (ids are handed out from a counter). */
  ghost predicate Bounded(f: Files, bound: nat) {
    forall id :: id in f ==> id < bound
  }

  /** Parents are created before their children, so a parent's id is
      smaller than its child's. */
  ghost predicate ParentsBelow(f: Files) {
    forall id :: id in f && f[id].parentId.Some? ==> f[id].parentId.value < id
  }

  /** Row `c` is a child of `p` visible to the query (`withTrashed` or the
      default soft-delete scope). */
  predicate IsChild(f: Files, c: Id, p: Id, withTrashed: bool) {
    c in f && f[c].parentId == Some(p) && (withTrashed || IsLive(f[c]))
  }

  /** `where('parent_id', p)->get()` over the ids in (p, hi), in ascending
      id order. */
  function ChildIds(f: Files, p: Id, hi: nat, withTrashed: bool): (r: seq<Id>)
    ensures forall c :: c in r <==> p < c < hi && IsChild(f, c, p, withTrashed)
    ensures forall i, j :: 0 <= i < j < |r| ==> r[i] < r[j]
    decreases hi
  {
    if hi <= p + 1 then []
    else
      var r := ChildIds(f, p, hi - 1, withTrashed);
      assert forall i :: 0 <= i < |r| ==> r[i] in r && r[i] < hi - 1;
      r + (if IsChild(f, hi - 1, p, withTrashed) then [hi - 1] else [])
  }

  /** The row filters of the queries the model and the controllers run. */
  datatype Query =
    | LiveIn(ids: set<Id>)                 // `File::find($ids)`, `whereIn('id', $ids)`
    | TrashedIn(ids: set<Id>)              // `onlyTrashed()->whereIn('id', $ids)`
    | AnyTrashed                           // `onlyTrashed()`, for every user
    | RootOf(user: UserId)                 // `where('created_by', $user)->whereIsRoot()`
    | AtPath(user: UserId, path: string)   // `where(['created_by' => $user, 'path' => $path])`
    | MyFiles(stars: set<Star>, user: UserId, folder: Id, search: string, favourites: bool,
              like: (string, string) -> bool)  // the My Files page

  /** Row `c` passes the filter `q`. In `MyFiles` the user's live rows are
      kept: with a (truthy) search term every row whose name matches (`like`
      is the database's `LIKE '%term%'`), otherwise the rows directly in
      `folder`; with `favourites` only the rows the user starred. */
  predicate Matches(e: Entry, c: Id, q: Query) {
    match q
    case LiveIn(ids) => c in ids && IsLive(e)
    case TrashedIn(ids) => c in ids && !IsLive(e)
    case AnyTrashed => !IsLive(e)
    case RootOf(user) => IsLive(e) && IsRoot(e) && IsOwnedBy(e, user)
    case AtPath(user, path) => IsLive(e) && IsOwnedBy(e, user) && e.path == Some(path)
    case MyFiles(stars, user, folder, search, favourites, like) =>
      && IsLive(e) && IsOwnedBy(e, user)
      && (if Truthy(search) then like(e.name, search) else e.parentId == Some(folder))
      && (favourites ==> Star(c, user) in stars)
  }

  /** `->get()` on the query `q` over the ids below `hi`, in id order (a
      query without `ORDER BY` is read in primary-key order). */
  function Select(f: Files, q: Query, hi: nat): (r: seq<Id>)
    ensures forall c: Id :: c in r <==> c < hi && c in f && Matches(f[c], c, q)
    ensures forall i, j :: 0 <= i < j < |r| ==> r[i] < r[j]
  {
    if hi == 0 then []
    else
      var r := Select(f, q, hi - 1);
      assert forall i :: 0 <= i < |r| ==> r[i] in r;
      assert forall c: Id :: c in r ==> c < hi - 1;
      assert forall i :: 0 <= i < |r| ==> r[i] < hi - 1;
      r + (if hi - 1 in f && Matches(f[hi - 1], hi - 1, q) then [hi - 1] else [])
  }

  /** `->first()` on the query `q`: the lowest matching id. */
  function FirstOf(f: Files, q: Query, hi: nat): (r: Option<Id>)
    ensures r.Some? ==> r.value < hi && r.value in f && Matches(f[r.value], r.value, q)
    ensures r.Some? ==> forall c :: c < r.value && c in f ==> !Matches(f[c], c, q)
    ensures r.None? ==> forall c :: c < hi && c in f ==> !Matches(f[c], c, q)
  {
    var rs := Select(f, q, hi);
    if rs == [] then None
    else
      assert rs[0] in rs;
      assert forall c :: c < rs[0] && c in f ==> !Matches(f[c], c, q) by {
        forall c | c < rs[0] && c in f ensures !Matches(f[c], c, q) {
          if Matches(f[c], c, q) {
            assert false;
          }
        }
      }
      Some(rs[0])
  }

  /** A prefix holds nothing the whole sequence does not. */
  lemma InPrefix(s: seq<Id>, k: nat)
    requires k <= |s|
    ensures forall x :: x in s[..k] ==> x in s
  {
    forall x | x in s[..k] ensures x in s {
      var i :| 0 <= i < k && s[..k][i] == x;
      assert s[i] == x;
    }
  }

  /** With no child below `hi`, `ChildIds` is empty. */
  lemma {:induction false} NoChildIds(f: Files, p: Id, hi: nat, withTrashed: bool)
    requires forall c :: p < c < hi ==> !IsChild(f, c, p, withTrashed)
    ensures ChildIds(f, p, hi, withTrashed) == []
    decreases hi
  {
    if hi > p + 1 {
      NoChildIds(f, p, hi - 1, withTrashed);
    }
  }

  /** Under `Bounded` and `ParentsBelow`, `ChildIds` lists every child. */
  lemma ChildIdsComplete(f: Files, bound: nat, p: Id, c: Id, withTrashed: bool)
    requires Bounded(f, bound) && ParentsBelow(f)
    requires IsChild(f, c, p, withTrashed)
    ensures c in ChildIds(f, p, bound, withTrashed)
  {
  }

  // ---------------------------------------------------------------------
  // Joined slugs: what the stored paths spell out when the hook held.

  /** The source of a row's parent when the hook ran: the row's parent, if
      it exists and was created first. */
  ghost predicate HookHeld(f: Files, id: Id, slug: string -> string)
    decreases id
  {
    id in f &&
    match f[id].parentId
    case None => true
    case Some(p) =>
      p < id && p in f && f[id].path == HookPath(Some(f[p]), f[id].name, slug) && HookHeld(f, p, slug)
  }

  /** The slugs of the names on the chain from just below the root down to
      `id`, joined by "/". */
  ghost function SlugChain(f: Files, id: Id, slug: string -> string): string
    requires HookHeld(f, id, slug)
    decreases id
  {
    match f[id].parentId
    case None => ""
    case Some(p) =>
      if IsRoot(f[p]) then slug(f[id].name) else SlugChain(f, p, slug) + "/" + slug(f[id].name)
  }

  /** When every row on the chain got its path from the creating hook (no
      rename since), a non-root row's path is the materialized slug path
      from the root, without the root's own segment. */
  lemma {:induction false} PathIsSlugChain(f: Files, id: Id, slug: string -> string)
    requires HookHeld(f, id, slug) && !IsRoot(f[id])
    ensures f[id].path == Some(SlugChain(f, id, slug))
  {
    var p := f[id].parentId.value;
    if !IsRoot(f[p]) {
      PathIsSlugChain(f, p, slug);
    }
  }

  // ---------------------------------------------------------------------
  // Subtrees as the recursive walks see them. A walk descends into a row's
  // children only when the row is a folder; `deleteForever` also descends
  // into trashed children (`withTrashed`), the other walks only into live
  // ones.

  /** The parent of `c`, when it exists, is older and is a folder. */
  function FolderParent(f: Files, c: Id): (r: Option<Id>)
    requires c in f
    ensures r.Some? ==> r.value < c && r.value in f && f[r.value].isFolder
    ensures r.Some? ==> f[c].parentId == Some(r.value)
  {
    match f[c].parentId
    case Some(p) => if p < c && p in f && f[p].isFolder then Some(p) else None
    case None => None
  }

  /** A walk started at `x` reaches row `c`: `c` is `x`, or `c` is visible
      and its parent is a folder that the walk reaches. */
  ghost predicate Reaches(f: Files, c: Id, x: Id, withTrashed: bool)
    decreases c
  {
    c in f &&
    (c == x ||
     ((withTrashed || IsLive(f[c])) && FolderParent(f, c).Some? && Reaches(f, FolderParent(f, c).value, x, withTrashed)))
  }

  /** The rows a walk started at `x` visits, `x` included. */
  ghost function Subtree(f: Files, x: Id, withTrashed: bool): set<Id> {
    set c | c in f && Reaches(f, c, x, withTrashed)
  }

  /** No row reached from a member of `u` is outside `u`. */
  ghost predicate DownClosed(f: Files, u: set<Id>, withTrashed: bool) {
    forall c, a {:trigger Reaches(f, c, a, withTrashed)} :: a in u && Reaches(f, c, a, withTrashed) ==> c in u
  }

  lemma {:induction false} ReachesBelow(f: Files, c: Id, x: Id, wt: bool)
    requires Reaches(f, c, x, wt)
    ensures x <= c && x in f
    decreases c
  {
    if c != x {
      ReachesBelow(f, FolderParent(f, c).value, x, wt);
    }
  }

  lemma {:induction false} ReachesTrans(f: Files, a: Id, b: Id, c: Id, wt: bool)
    requires Reaches(f, a, b, wt) && Reaches(f, b, c, wt)
    ensures Reaches(f, a, c, wt)
    decreases a
  {
    if a != b {
      ReachesTrans(f, FolderParent(f, a).value, b, c, wt);
    }
  }

  lemma SubtreeIsClosed(f: Files, x: Id, wt: bool)
    ensures DownClosed(f, Subtree(f, x, wt), wt)
  {
    forall c, a | a in Subtree(f, x, wt) && Reaches(f, c, a, wt)
      ensures c in Subtree(f, x, wt)
    {
      ReachesTrans(f, c, a, x, wt);
    }
  }

  /** Removing a down-closed set of rows changes nothing about what is
      reached among the remaining rows. */
  lemma {:induction false} ReachesWithout(f: Files, u: set<Id>, c: Id, x: Id, wt: bool)
    requires DownClosed(f, u, wt)
    ensures Reaches(f - u, c, x, wt) <==> Reaches(f, c, x, wt) && c !in u
    decreases c
  {
    var g := f - u;
    if c in g && c != x && FolderParent(g, c).Some? {
      ReachesWithout(f, u, FolderParent(g, c).value, x, wt);
    }
    if c in f && c !in u && c != x && FolderParent(f, c).Some? && (wt || IsLive(f[c])) {
      var p := FolderParent(f, c).value;
      assert Reaches(f, p, p, wt);
      assert Reaches(f, c, p, wt);
      ReachesWithout(f, u, p, x, wt);
    }
  }

  /** After a down-closed set `u` is gone, a walk from `x` visits exactly
      what it visited before, minus `u`. */
  lemma SubtreeWithout(f: Files, u: set<Id>, x: Id, wt: bool)
    requires DownClosed(f, u, wt)
    ensures Subtree(f - u, x, wt) == Subtree(f, x, wt) - u
  {
    forall c ensures c in Subtree(f - u, x, wt) <==> c in Subtree(f, x, wt) - u {
      ReachesWithout(f, u, c, x, wt);
    }
  }

  /** The union of the subtrees of `cs`. */
  ghost function UnionSubtrees(f: Files, cs: seq<Id>, wt: bool): set<Id> {
    if cs == [] then {} else UnionSubtrees(f, cs[..|cs| - 1], wt) + Subtree(f, cs[|cs| - 1], wt)
  }

  lemma {:induction false} UnionSubtreesMembers(f: Files, cs: seq<Id>, c: Id, wt: bool)
    ensures c in UnionSubtrees(f, cs, wt) <==> exists k :: k in cs && c in Subtree(f, k, wt)
  {
    if cs != [] {
      UnionSubtreesMembers(f, cs[..|cs| - 1], c, wt);
      assert cs == cs[..|cs| - 1] + [cs[|cs| - 1]];
      if c in Subtree(f, cs[|cs| - 1], wt) {
        assert cs[|cs| - 1] in cs;
      }
    }
  }

  lemma UnionSubtreesClosed(f: Files, cs: seq<Id>, wt: bool)
    ensures DownClosed(f, UnionSubtrees(f, cs, wt), wt)
  {
    forall c, a | a in UnionSubtrees(f, cs, wt) && Reaches(f, c, a, wt)
      ensures c in UnionSubtrees(f, cs, wt)
    {
      UnionSubtreesMembers(f, cs, a, wt);
      var k :| k in cs && a in Subtree(f, k, wt);
      SubtreeIsClosed(f, k, wt);
      UnionSubtreesMembers(f, cs, c, wt);
    }
  }

  /** Whatever a row other than `x` reaches through `x`, it reaches through a
      visible child of `x`. */
  lemma {:induction false} ReachesViaChild(f: Files, c: Id, x: Id, wt: bool) returns (k: Id)
    requires Reaches(f, c, x, wt) && c != x
    ensures k in f && FolderParent(f, k) == Some(x) && (wt || IsLive(f[k])) && Reaches(f, c, k, wt)
    decreases c
  {
    var p := FolderParent(f, c).value;
    if p == x {
      k := c;
    } else {
      k := ReachesViaChild(f, p, x, wt);
      assert Reaches(f, c, p, wt);
      ReachesTrans(f, c, p, k, wt);
    }
  }

  /** A folder's subtree is the folder and the subtrees of its visible
      children. */
  lemma SubtreeOfFolder(f: Files, bound: nat, x: Id, wt: bool)
    requires Bounded(f, bound) && ParentsBelow(f)
    requires x in f && f[x].isFolder
    ensures Subtree(f, x, wt) == {x} + UnionSubtrees(f, ChildIds(f, x, bound, wt), wt)
  {
    var cs := ChildIds(f, x, bound, wt);
    forall c | c in Subtree(f, x, wt) && c != x ensures c in UnionSubtrees(f, cs, wt) {
      BelowInChildSubtree(f, bound, x, c, wt);
    }
    forall c | c in UnionSubtrees(f, cs, wt) ensures c in Subtree(f, x, wt) {
      ChildSubtreeBelow(f, bound, x, c, wt);
    }
    assert x in Subtree(f, x, wt);
  }

  /** A folder's purge is the purge of its children's subtrees, which
      leaves the folder alone in its own subtree, and then the folder. */
  lemma FolderSplit(f: Files, bound: nat, x: Id)
    requires Bounded(f, bound) && ParentsBelow(f)
    requires x in f && f[x].isFolder
    ensures var u := UnionSubtrees(f, ChildIds(f, x, bound, true), true);
      Subtree(f, x, true) == u + {x} && x !in u && Subtree(f - u, x, true) == {x}
  {
    var cs := ChildIds(f, x, bound, true);
    var u := UnionSubtrees(f, cs, true);
    SubtreeOfFolder(f, bound, x, true);
    forall c | c in u ensures x < c {
      UnionSubtreesMembers(f, cs, c, true);
      var k :| k in cs && c in Subtree(f, k, true);
      ReachesBelow(f, c, k, true);
    }
    UnionSubtreesClosed(f, cs, true);
    SubtreeWithout(f, u, x, true);
  }

  /** A row strictly below `x` lies in the subtree of one of its children. */
  lemma BelowInChildSubtree(f: Files, bound: nat, x: Id, c: Id, wt: bool)
    requires Bounded(f, bound) && ParentsBelow(f)
    requires c in Subtree(f, x, wt) && c != x
    ensures c in UnionSubtrees(f, ChildIds(f, x, bound, wt), wt)
  {
    var k := ReachesViaChild(f, c, x, wt);
    ChildIdsComplete(f, bound, x, k, wt);
    UnionSubtreesMembers(f, ChildIds(f, x, bound, wt), c, wt);
  }

  /** A row in the subtree of a child of `x` lies in the subtree of `x`. */
  lemma ChildSubtreeBelow(f: Files, bound: nat, x: Id, c: Id, wt: bool)
    requires x in f && f[x].isFolder
    requires c in UnionSubtrees(f, ChildIds(f, x, bound, wt), wt)
    ensures c in Subtree(f, x, wt)
  {
    var cs := ChildIds(f, x, bound, wt);
    UnionSubtreesMembers(f, cs, c, wt);
    var k :| k in cs && c in Subtree(f, k, wt);
    assert Reaches(f, k, x, wt);
    ReachesTrans(f, c, k, x, wt);
  }

  /** A row that is not a folder is its own subtree; a missing row has an
      empty one. */
  lemma SubtreeOfLeaf(f: Files, x: Id, wt: bool)
    requires x !in f || !f[x].isFolder
    ensures Subtree(f, x, wt) == if x in f then {x} else {}
  {
    forall c | c in Subtree(f, x, wt) ensures c == x {
      if c != x {
        var k := ReachesViaChild(f, c, x, wt);
      }
    }
  }

  /** A subtree holds no id below its top. */
  lemma SubtreeAbove(f: Files, c: Id, id: Id, wt: bool)
    requires id < c
    ensures id !in Subtree(f, c, wt)
  {
    if id in Subtree(f, c, wt) {
      ReachesBelow(f, id, c, wt);
    }
  }

  // ---------------------------------------------------------------------
  // Dependent rows removed with the entries.

  /** `file_shares` without the rows of the removed files. */
  function SharesWithout(s: seq<ShareRow>, gone: set<Id>): (r: seq<ShareRow>)
    ensures forall row :: row in r <==> row in s && row.fileId !in gone
    ensures |r| <= |s|
  {
    if s == [] then []
    else (if s[0].fileId in gone then [] else [s[0]]) + SharesWithout(s[1..], gone)
  }

  lemma {:induction false} SharesWithoutTwice(s: seq<ShareRow>, a: set<Id>, b: set<Id>)
    ensures SharesWithout(SharesWithout(s, a), b) == SharesWithout(s, a + b)
  {
    if s != [] {
      SharesWithoutTwice(s[1..], a, b);
      if s[0].fileId !in a {
        assert SharesWithout(s, a) == [s[0]] + SharesWithout(s[1..], a);
        assert SharesWithout(s, a)[1..] == SharesWithout(s[1..], a);
      } else {
        assert SharesWithout(s, a) == SharesWithout(s[1..], a);
      }
    }
  }

  lemma {:induction false} SharesWithoutNothing(s: seq<ShareRow>)
    ensures SharesWithout(s, {}) == s
  {
    if s != [] {
      SharesWithoutNothing(s[1..]);
      assert s == [s[0]] + s[1..];
    }
  }

  /** `starred_files` without the rows of the removed files. */
  function StarsWithout(stars: set<Star>, gone: set<Id>): (r: set<Star>)
    ensures forall s :: s in r <==> s in stars && s.fileId !in gone
  {
    set s | s in stars && s.fileId !in gone
  }

  /** The blobs owned by the rows of `gone`. */
  function BlobKeysOf(f: Files, gone: set<Id>): set<BlobKey> {
    set c | c in gone && c in f && StoresBlob(f[c]) :: f[c].storagePath.value
  }
}
