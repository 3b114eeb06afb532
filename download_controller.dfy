/** `DownloadController`: which downloads a request gets (a message, one
    streamed file or a zip), and how a zip is filled by walking the
    selection depth-first. */
module DownloadController {
  import opened Types
  import opened Tree
  import opened Ordering
  import opened FileModel

  const SelectOne := "Please select at least one file or one folder to download."
  const FolderEmpty := "The folder is empty."

  // ---------------------------------------------------------------------
  // The walk of `addFilesToZip`.

  /** What the walk adds for one file: a note's text, or the bytes stored
      under a key (fetched through a temp file). */
  datatype Pick = NoteText(name: string, text: Bytes) | Stored(name: string, key: Option<BlobKey>)

  /** `Storage::get`: null for a missing key, and writing null to the temp
      file leaves it empty. */
  function Fetch(blobs: map<BlobKey, Bytes>, key: Option<BlobKey>): (r: Bytes)
    ensures key.Some? && key.value in blobs ==> r == blobs[key.value]
    ensures !(key.Some? && key.value in blobs) ==> r == []
  {
    if key.Some? && key.value in blobs then blobs[key.value] else []
  }

  function EntryOf(p: Pick, blobs: map<BlobKey, Bytes>): ZipEntry {
    match p
    case NoteText(name, text) => ZipEntry(name, text)
    case Stored(name, key) => ZipEntry(name, Fetch(blobs, key))
  }

  /** The archive entries of the picks, in order, under the same names. */
  function Entries(ps: seq<Pick>, blobs: map<BlobKey, Bytes>): (r: seq<ZipEntry>)
    ensures |r| == |ps|
    ensures forall i :: 0 <= i < |ps| ==> r[i] == EntryOf(ps[i], blobs) && r[i].name == ps[i].name
  {
    if ps == [] then [] else Entries(ps[..|ps| - 1], blobs) + [EntryOf(ps[|ps| - 1], blobs)]
  }

  lemma {:induction false} EntriesAppend(a: seq<Pick>, b: seq<Pick>, blobs: map<BlobKey, Bytes>)
    ensures Entries(a + b, blobs) == Entries(a, blobs) + Entries(b, blobs)
  {
  }

  /** How many picks go through a temp file. */
  function Stores(ps: seq<Pick>): (n: nat)
    ensures n <= |ps|
  {
    if ps == [] then 0 else Stores(ps[..|ps| - 1]) + (if ps[|ps| - 1].Stored? then 1 else 0)
  }

  lemma {:induction false} StoresAppend(a: seq<Pick>, b: seq<Pick>)
    ensures Stores(a + b) == Stores(a) + Stores(b)
    decreases |b|
  {
    if b != [] {
      assert (a + b)[..|a + b| - 1] == a + b[..|b| - 1];
      assert (a + b)[|a + b| - 1] == b[|b| - 1];
      StoresAppend(a, b[..|b| - 1]);
    } else {
      assert a + b == a;
    }
  }

  /** One file of the walk: a folder contributes its live children under
      `prefix + name + "/"`, a note `prefix + name + ".txt"`, any other
      file `prefix + name`. */
  function WalkOne(f: Files, x: Id, prefix: string, hi: nat): seq<Pick>
    requires x < hi
    decreases hi - x, 1, 0
  {
    if x !in f then []
    else if f[x].isFolder then Walk(f, ChildIds(f, x, hi, false), prefix + f[x].name + "/", hi, x)
    else if f[x].kind == Note then [NoteText(prefix + f[x].name + ".txt", f[x].noteContent.GetOr([]))]
    else [Stored(prefix + f[x].name, f[x].storagePath)]
  }

  /** The files one after the other. */
  function Walk(f: Files, files: seq<Id>, prefix: string, hi: nat, floor: int): seq<Pick>
    requires forall c :: c in files ==> floor < c < hi
    decreases hi - floor, 0, |files|
  {
    if files == [] then []
    else
      assert files[|files| - 1] in files;
      InPrefix(files, |files| - 1);
      Walk(f, files[..|files| - 1], prefix, hi, floor) + WalkOne(f, files[|files| - 1], prefix, hi)
  }

  /** Every entry name starts with the prefix the walk was given. */
  lemma {:induction false} WalkOnePrefixed(f: Files, x: Id, prefix: string, hi: nat)
    requires x < hi
    ensures forall p :: p in WalkOne(f, x, prefix, hi) ==> prefix <= p.name
    decreases hi - x, 1, 0
  {
    if x in f && f[x].isFolder {
      var inner := prefix + f[x].name + "/";
      WalkPrefixed(f, ChildIds(f, x, hi, false), inner, hi, x);
      forall p | p in WalkOne(f, x, prefix, hi) ensures prefix <= p.name {
        assert inner <= p.name;
        assert p.name[..|prefix|] == inner[..|prefix|];
      }
    }
  }

  lemma {:induction false} WalkPrefixed(f: Files, files: seq<Id>, prefix: string, hi: nat, floor: int)
    requires forall c :: c in files ==> floor < c < hi
    ensures forall p :: p in Walk(f, files, prefix, hi, floor) ==> prefix <= p.name
    decreases hi - floor, 0, |files|
  {
    if files != [] {
      assert files[|files| - 1] in files;
      InPrefix(files, |files| - 1);
      WalkPrefixed(f, files[..|files| - 1], prefix, hi, floor);
      WalkOnePrefixed(f, files[|files| - 1], prefix, hi);
    }
  }

  /** Everything a folder contributes lies under `prefix + name + "/"`. */
  lemma FolderEntriesNested(f: Files, x: Id, prefix: string, hi: nat)
    requires x < hi && x in f && f[x].isFolder
    ensures forall p :: p in WalkOne(f, x, prefix, hi) ==> prefix + f[x].name + "/" <= p.name
  {
    WalkPrefixed(f, ChildIds(f, x, hi, false), prefix + f[x].name + "/", hi, x);
  }

  /** A folder without live children adds nothing. */
  lemma EmptyFolderAddsNothing(f: Files, x: Id, prefix: string, hi: nat)
    requires x < hi && x in f && f[x].isFolder
    requires forall c :: x < c < hi ==> !IsChild(f, c, x, false)
    ensures WalkOne(f, x, prefix, hi) == []
  {
    NoChildIds(f, x, hi, false);
  }

  // ---------------------------------------------------------------------
  // The archive and the temp directory.

  /** An open `ZipArchive`: the entries added so far. */
  class Zip {
    var entries: seq<ZipEntry>

    constructor ()
      ensures entries == []
    {
      entries := [];
    }

    /** `addFromString`. */
    method AddFromString(name: string, content: Bytes)
      modifies this
      ensures entries == old(entries) + [ZipEntry(name, content)]
    {
      entries := entries + [ZipEntry(name, content)];
    }

    /** `addFile`: the entry takes the temp file's bytes. */
    method AddFile(tmp: Scratch, t: nat, name: string)
      requires t in tmp.files
      modifies this
      ensures entries == old(entries) + [ZipEntry(name, tmp.files[t])]
    {
      entries := entries + [ZipEntry(name, tmp.files[t])];
    }
  }

  /** The system temp directory: the files `tempnam` created, the next
      name it hands out, and the names registered for unlinking at
      shutdown. */
  class Scratch {
    var files: map<nat, Bytes>
    var next: nat
    var cleanup: set<nat>

    ghost predicate Valid()
      reads this
    {
      (forall t :: t in files ==> t < next) && (forall t :: t in cleanup ==> t < next)
    }

    constructor ()
      ensures Valid() && files == map[] && next == 0 && cleanup == {}
    {
      files := map[];
      next := 0;
      cleanup := {};
    }

    /** `tempnam`: a new empty file with a name never handed out before. */
    method TempNam() returns (t: nat)
      requires Valid()
      modifies this
      ensures Valid()
      ensures t == old(next) && t !in old(files) && next == old(next) + 1
      ensures files == old(files)[t := []] && cleanup == old(cleanup)
    {
      t := next;
      files := files[t := []];
      next := next + 1;
    }

    /** `file_put_contents`. */
    method Put(t: nat, content: Bytes)
      requires Valid() && t in files
      modifies this
      ensures Valid()
      ensures files == old(files)[t := content] && next == old(next) && cleanup == old(cleanup)
    {
      files := files[t := content];
    }

    /** `register_shutdown_function` over a list of temp files. */
    method Register(ts: seq<nat>)
      requires Valid() && forall t :: t in ts ==> t < next
      modifies this
      ensures Valid()
      ensures cleanup == old(cleanup) + set t | t in ts
      ensures files == old(files) && next == old(next)
    {
      cleanup := cleanup + set t | t in ts;
    }
  }

  /** The names `lo`, ..., `hi - 1`. */
  function Span(lo: nat, hi: nat): (r: set<nat>)
    ensures forall t :: t in r <==> lo <= t < hi
    decreases hi
  {
    if hi <= lo then {} else Span(lo, hi - 1) + {hi - 1}
  }

  /** The first `i` files of a walk are in order below `hi`. */
  predicate Walkable(f: Files, files: seq<Id>, i: nat, hi: nat, floor: int) {
    i <= |files| && forall c :: c in files[..i] ==> floor < c < hi
  }

  /** The walk over one more file ends with that file's part. */
  lemma WalkSnoc(f: Files, files: seq<Id>, i: nat, prefix: string, hi: nat, floor: int, blobs: map<BlobKey, Bytes>)
    requires i < |files| && forall c :: c in files ==> floor < c < hi
    ensures Walkable(f, files, i, hi, floor) && Walkable(f, files, i + 1, hi, floor) && floor < files[i] < hi
    ensures var before := Walk(f, files[..i], prefix, hi, floor);
      var one := WalkOne(f, files[i], prefix, hi);
      Walk(f, files[..i + 1], prefix, hi, floor) == before + one &&
      Entries(before + one, blobs) == Entries(before, blobs) + Entries(one, blobs) &&
      Stores(before + one) == Stores(before) + Stores(one)
  {
    assert files[i] in files;
    InPrefix(files, i);
    InPrefix(files, i + 1);
    var before := Walk(f, files[..i], prefix, hi, floor);
    var one := WalkOne(f, files[i], prefix, hi);
    assert files[..i + 1][..i] == files[..i];
    EntriesAppend(before, one, blobs);
    StoresAppend(before, one);
  }

  /** The names in a list. */
  function Elems(ts: seq<nat>): (r: set<nat>)
    ensures forall t :: t in r <==> t in ts
  {
    if ts == [] then {} else Elems(ts[..|ts| - 1]) + {ts[|ts| - 1]}
  }

  /** The cleanup list still covers every temp name once one more file is
      added: either its temp file joins the list, or the names made below
      it were registered there already. */
  lemma CleanupStep(c0: set<nat>, n0: nat, a: nat, b: nat, before: set<nat>, after: set<nat>,
                    tf: seq<nat>, ts: seq<nat>, some: bool)
    requires n0 <= a <= b
    requires before + Elems(tf) == c0 + Span(n0, a)
    requires some ==> b == a + 1 && after == before && ts == tf + [a]
    requires !some ==> after == before + Span(a, b) && ts == tf
    ensures after + Elems(ts) == c0 + Span(n0, b)
  {
    SpanJoin(n0, a, b);
    if some {
      assert Elems(ts) == Elems(tf) + {a};
    }
  }

  lemma SpanJoin(lo: nat, mid: nat, hi: nat)
    requires lo <= mid <= hi
    ensures Span(lo, mid) + Span(mid, hi) == Span(lo, hi)
  {
  }

  /** One file of `addFilesToZip`'s loop: a folder recurses (and registers
      its own temp files); a note is added from its text; any other file is
      copied into a new temp file that is added to the archive and handed
      back to the caller to register. */
  method AddOne(v: Vault, zip: Zip, tmp: Scratch, x: Id, prefix: string) returns (temp: Option<nat>)
    requires v.Valid() && tmp.Valid() && x < v.nextId
    modifies zip, tmp
    ensures tmp.Valid()
    ensures zip.entries == old(zip.entries) + Entries(WalkOne(v.files, x, prefix, v.nextId), v.blobs)
    ensures tmp.next == old(tmp.next) + Stores(WalkOne(v.files, x, prefix, v.nextId))
    ensures tmp.files.Keys == old(tmp.files).Keys + Span(old(tmp.next), tmp.next)
    ensures temp.Some? ==> temp == Some(old(tmp.next)) && tmp.next == old(tmp.next) + 1 && tmp.cleanup == old(tmp.cleanup)
    ensures temp.None? ==> tmp.cleanup == old(tmp.cleanup) + Span(old(tmp.next), tmp.next)
    decreases v.nextId - x, 1
  {
    temp := None;
    if x !in v.files {
      return;
    }
    var e := v.files[x];
    if e.isFolder {
      AddFilesToZip(v, zip, tmp, v.Children(x), prefix + e.name + "/", x);
    } else if e.kind == Note {
      zip.AddFromString(prefix + e.name + ".txt", e.noteContent.GetOr([]));
    } else {
      var t := tmp.TempNam();
      tmp.Put(t, Fetch(v.blobs, e.storagePath));
      zip.AddFile(tmp, t, prefix + e.name);
      temp := Some(t);
    }
  }

  /** Where `addFilesToZip`'s loop stands after `i` files, against the
      archive entries `e0`, the temp names `k0` and `n0` and the cleanup
      list `c0` it started from: the archive holds the walk of those
      files, every temp name made since is a file, and each is registered
      for cleanup or still on the loop's own list `tempFiles`. */
  predicate Reached(f: Files, hi: nat, blobs: map<BlobKey, Bytes>, files: seq<Id>, i: nat, prefix: string, floor: int,
                    e0: seq<ZipEntry>, k0: set<nat>, n0: nat, c0: set<nat>,
                    entries: seq<ZipEntry>, keys: set<nat>, next: nat, cleanup: set<nat>, tempFiles: seq<nat>)
  {
    n0 <= next && Walkable(f, files, i, hi, floor) &&
    entries == e0 + Entries(Walk(f, files[..i], prefix, hi, floor), blobs) &&
    next == n0 + Stores(Walk(f, files[..i], prefix, hi, floor)) &&
    keys == k0 + Span(n0, next) &&
    cleanup + Elems(tempFiles) == c0 + Span(n0, next)
  }

  lemma EntriesStep(f: Files, files: seq<Id>, i: nat, prefix: string, hi: nat, floor: int,
                    blobs: map<BlobKey, Bytes>, e0: seq<ZipEntry>, entries: seq<ZipEntry>, entries': seq<ZipEntry>)
    requires i < |files| && floor < files[i] < hi && forall c :: c in files ==> floor < c < hi
    requires Walkable(f, files, i, hi, floor)
    requires entries == e0 + Entries(Walk(f, files[..i], prefix, hi, floor), blobs)
    requires entries' == entries + Entries(WalkOne(f, files[i], prefix, hi), blobs)
    ensures Walkable(f, files, i + 1, hi, floor)
    ensures entries' == e0 + Entries(Walk(f, files[..i + 1], prefix, hi, floor), blobs)
  {
    WalkSnoc(f, files, i, prefix, hi, floor, blobs);
    Regroup(e0, Entries(Walk(f, files[..i], prefix, hi, floor), blobs), Entries(WalkOne(f, files[i], prefix, hi), blobs));
  }

  lemma Regroup(a: seq<ZipEntry>, b: seq<ZipEntry>, c: seq<ZipEntry>)
    ensures (a + b) + c == a + (b + c)
  {
  }

  lemma StoresStep(f: Files, files: seq<Id>, i: nat, prefix: string, hi: nat, floor: int,
                   n0: nat, next: nat, next': nat)
    requires i < |files| && floor < files[i] < hi && forall c :: c in files ==> floor < c < hi
    requires Walkable(f, files, i, hi, floor)
    requires next == n0 + Stores(Walk(f, files[..i], prefix, hi, floor))
    requires next' == next + Stores(WalkOne(f, files[i], prefix, hi))
    ensures Walkable(f, files, i + 1, hi, floor)
    ensures next' == n0 + Stores(Walk(f, files[..i + 1], prefix, hi, floor))
  {
    WalkSnoc(f, files, i, prefix, hi, floor, map[]);
  }

  /** Adding file `i` as `AddOne` does keeps the loop on track. */
  lemma ReachedStep(f: Files, hi: nat, blobs: map<BlobKey, Bytes>, files: seq<Id>, i: nat, prefix: string, floor: int,
                    e0: seq<ZipEntry>, k0: set<nat>, n0: nat, c0: set<nat>,
                    entries: seq<ZipEntry>, keys: set<nat>, next: nat, cleanup: set<nat>, tf: seq<nat>,
                    entries': seq<ZipEntry>, keys': set<nat>, next': nat, cleanup': set<nat>, ts: seq<nat>, some: bool)
    requires i < |files| && floor < files[i] < hi && forall c :: c in files ==> floor < c < hi
    requires Reached(f, hi, blobs, files, i, prefix, floor, e0, k0, n0, c0, entries, keys, next, cleanup, tf)
    requires entries' == entries + Entries(WalkOne(f, files[i], prefix, hi), blobs)
    requires next' == next + Stores(WalkOne(f, files[i], prefix, hi))
    requires keys' == keys + Span(next, next')
    requires some ==> next' == next + 1 && cleanup' == cleanup && ts == tf + [next]
    requires !some ==> cleanup' == cleanup + Span(next, next') && ts == tf
    ensures Reached(f, hi, blobs, files, i + 1, prefix, floor, e0, k0, n0, c0, entries', keys', next', cleanup', ts)
  {
    EntriesStep(f, files, i, prefix, hi, floor, blobs, e0, entries, entries');
    StoresStep(f, files, i, prefix, hi, floor, n0, next, next');
    assert keys' == k0 + Span(n0, next') by {
      SpanJoin(n0, next, next');
    }
    assert cleanup' + Elems(ts) == c0 + Span(n0, next') by {
      CleanupStep(c0, n0, next, next', cleanup, cleanup', tf, ts, some);
    }
  }

  /** `addFilesToZip`: the files in order; the temp files this call made
      are registered for unlinking when it ends. Every temp file created
      under it, at any depth, is one regular file added and is registered. */
  method AddFilesToZip(v: Vault, zip: Zip, tmp: Scratch, files: seq<Id>, prefix: string, ghost floor: int)
    requires v.Valid() && tmp.Valid()
    requires -1 <= floor && forall c :: c in files ==> floor < c < v.nextId
    modifies zip, tmp
    ensures tmp.Valid()
    ensures zip.entries == old(zip.entries) + Entries(Walk(v.files, files, prefix, v.nextId, floor), v.blobs)
    ensures tmp.next == old(tmp.next) + Stores(Walk(v.files, files, prefix, v.nextId, floor))
    ensures tmp.files.Keys == old(tmp.files).Keys + Span(old(tmp.next), tmp.next)
    ensures tmp.cleanup == old(tmp.cleanup) + Span(old(tmp.next), tmp.next)
    decreases v.nextId - floor, 0
  {
    var tempFiles: seq<nat> := [];
    ghost var e0, k0, n0, c0 := zip.entries, tmp.files.Keys, tmp.next, tmp.cleanup;
    assert Span(n0, n0) == {} && files[..0] == [] && Elems([]) == {};
    var i := 0;
    while i < |files|
      invariant 0 <= i <= |files| && tmp.Valid()
      invariant Reached(v.files, v.nextId, v.blobs, files, i, prefix, floor, e0, k0, n0, c0,
                        zip.entries, tmp.files.Keys, tmp.next, tmp.cleanup, tempFiles)
    {
      ghost var entries, keys, next, cleanup, tf := zip.entries, tmp.files.Keys, tmp.next, tmp.cleanup, tempFiles;
      assert files[i] in files;
      var temp := AddOne(v, zip, tmp, files[i], prefix);
      if temp.Some? {
        tempFiles := tempFiles + [temp.value];
      }
      ReachedStep(v.files, v.nextId, v.blobs, files, i, prefix, floor, e0, k0, n0, c0,
                  entries, keys, next, cleanup, tf, zip.entries, tmp.files.Keys, tmp.next, tmp.cleanup, tempFiles, temp.Some?);
      i := i + 1;
    }
    assert files[..i] == files;
    assert forall t :: t in tempFiles ==> t in c0 + Span(n0, tmp.next);
    tmp.Register(tempFiles);
  }

  // ---------------------------------------------------------------------
  // What a download request gets.

  /** The way a request is answered: directly, by streaming one file, or by
      a zip of some files under a name. */
  datatype Decision = Answer(reply: Reply) | StreamOne(id: Id) | ZipOf(files: seq<Id>, zipName: string)

  /** The files of a decision are ids handed out so far. */
  predicate Below(d: Decision, hi: nat) {
    d.ZipOf? ==> forall c :: c in d.files ==> c < hi
  }

  /** `handleDownload`: one id is looked up (a row `find` does not see ends
      the request with an error); a folder is zipped from its live children
      under its own name, or reported empty; any other file is streamed.
      Several ids are zipped under `zipName`. */
  function HandleDecision(f: Files, ids: seq<Id>, zipName: string, hi: nat): (d: Decision)
    ensures Below(d, hi)
  {
    if |ids| == 1 then
      var x := ids[0];
      if !(x in f && IsLive(f[x])) then Answer(Crash)
      else if f[x].isFolder then
        var cs := ChildIds(f, x, hi, false);
        if cs == [] then Answer(Message(FolderEmpty)) else ZipOf(cs, f[x].name + ".zip")
      else StreamOne(x)
    else ZipOf(Select(f, LiveIn(set x | x in ids), hi), zipName + ".zip")
  }

  /** `fromMyFiles`. */
  function FromMyFilesDecision(f: Files, parent: Id, all: bool, ids: seq<Id>, hi: nat): (d: Decision)
    ensures Below(d, hi)
  {
    if !all && ids == [] then Answer(Message(SelectOne))
    else if parent !in f then Answer(Crash)
    else if all then ZipOf(ChildIds(f, parent, hi, false), f[parent].name + ".zip")
    else HandleDecision(f, ids, f[parent].name, hi)
  }

  /** The listing a shared download starts from. */
  function SharedList(f: Files, shares: seq<ShareRow>, user: UserId, byMe: bool): seq<Keyed> {
    if byMe then SharedByMe(f, shares, user) else SharedWithMe(f, shares, user)
  }

  /** The ids of a shared listing are live rows. */
  lemma SharedIdsBelow(f: Files, shares: seq<ShareRow>, user: UserId, byMe: bool, hi: nat)
    requires Bounded(f, hi)
    ensures forall c :: c in Ids(SharedList(f, shares, user, byMe)) ==> c in f && c < hi
  {
    var r := SharedList(f, shares, user, byMe);
    forall c | c in Ids(r) ensures c in f {
      var i :| 0 <= i < |Ids(r)| && Ids(r)[i] == c;
      assert r[i] in r;
    }
  }

  /** `sharedWithMe` (`byMe` false) and `sharedByMe` (`byMe` true). */
  function SharedDecision(f: Files, shares: seq<ShareRow>, user: UserId, byMe: bool, all: bool, ids: seq<Id>,
                          hi: nat): (d: Decision)
    requires Bounded(f, hi)
    ensures Below(d, hi)
  {
    var zipName := if byMe then "shared-by-me" else "shared-with-me";
    if !all && ids == [] then Answer(Message(SelectOne))
    else if all then
      SharedIdsBelow(f, shares, user, byMe, hi);
      ZipOf(Ids(SharedList(f, shares, user, byMe)), zipName + ".zip")
    else HandleDecision(f, ids, zipName, hi)
  }

  /** `streamSingleFile`: a note as `<name>.txt` with its text (empty when
      null); any other file from the object store under its name, which
      fails when the key is not there. */
  function StreamSingle(f: Files, blobs: map<BlobKey, Bytes>, x: Id): (r: Reply)
    requires x in f
    ensures r.Stream? || r == Crash
    ensures f[x].kind == Note ==> r == Stream(f[x].name + ".txt", f[x].noteContent.GetOr([]))
    ensures f[x].kind != Note ==>
              (r.Stream? <==> f[x].storagePath.Some? && f[x].storagePath.value in blobs)
    ensures f[x].kind != Note && r.Stream? ==> r == Stream(f[x].name, blobs[f[x].storagePath.value])
  {
    if f[x].kind == Note then Stream(f[x].name + ".txt", f[x].noteContent.GetOr([]))
    else if f[x].storagePath.Some? && f[x].storagePath.value in blobs then Stream(f[x].name, blobs[f[x].storagePath.value])
    else Crash
  }

  /** The reply a decision comes to. */
  function Outcome(d: Decision, f: Files, blobs: map<BlobKey, Bytes>, hi: nat): Reply
    requires Below(d, hi)
    requires d.StreamOne? ==> d.id in f
  {
    match d
    case Answer(r) => r
    case StreamOne(x) => StreamSingle(f, blobs, x)
    case ZipOf(files, name) => Archive(name, Entries(Walk(f, files, "", hi, -1), blobs))
  }

  /** The temp files a decision creates. */
  function Temps(d: Decision, f: Files, hi: nat): nat
    requires Below(d, hi)
  {
    if d.ZipOf? then Stores(Walk(f, d.files, "", hi, -1)) else 0
  }

  /** Without `all` and without ids, every entry point answers with the
      message and builds nothing. */
  lemma NothingSelected(f: Files, shares: seq<ShareRow>, parent: Id, user: UserId, byMe: bool, hi: nat)
    requires Bounded(f, hi)
    ensures FromMyFilesDecision(f, parent, false, [], hi) == Answer(Message(SelectOne))
    ensures SharedDecision(f, shares, user, byMe, false, [], hi) == Answer(Message(SelectOne))
  {
  }

  /** A single file is streamed, never zipped. */
  lemma SingleFileStreamed(f: Files, x: Id, zipName: string, hi: nat)
    requires x in f && IsLive(f[x]) && !f[x].isFolder
    ensures HandleDecision(f, [x], zipName, hi) == StreamOne(x)
  {
  }

  /** A single stored file downloads from My Files under its own name with
      exactly the bytes the store holds for it. */
  lemma SingleStoredFileDownloads(f: Files, blobs: map<BlobKey, Bytes>, parent: Id, x: Id, hi: nat)
    requires parent in f && x in f && IsLive(f[x]) && !f[x].isFolder && f[x].kind != Note
    requires f[x].storagePath.Some? && f[x].storagePath.value in blobs
    ensures var d := FromMyFilesDecision(f, parent, false, [x], hi);
      d == StreamOne(x) && Outcome(d, f, blobs, hi) == Stream(f[x].name, blobs[f[x].storagePath.value])
  {
    SingleFileStreamed(f, x, f[parent].name, hi);
  }

  /** A stored file whose blob is gone fails to download. */
  lemma MissingBlobFails(f: Files, blobs: map<BlobKey, Bytes>, parent: Id, x: Id, hi: nat)
    requires parent in f && x in f && IsLive(f[x]) && !f[x].isFolder && f[x].kind != Note
    requires !(f[x].storagePath.Some? && f[x].storagePath.value in blobs)
    ensures Outcome(FromMyFilesDecision(f, parent, false, [x], hi), f, blobs, hi) == Crash
  {
    SingleFileStreamed(f, x, f[parent].name, hi);
  }

  /** A selection without a parent row ends in an error, as reading the
      parent's name or children does on null. */
  lemma MissingParentFails(f: Files, parent: Id, all: bool, ids: seq<Id>, hi: nat)
    requires parent !in f && (all || ids != [])
    ensures FromMyFilesDecision(f, parent, all, ids, hi) == Answer(Crash)
  {
  }

  /** A single folder is zipped from its children under its own name, with
      no directory around them: the same archive `all` gives from inside
      the folder, unless the folder is empty. */
  lemma SingleFolderLikeAll(f: Files, x: Id, parentName: string, hi: nat)
    requires x in f && IsLive(f[x]) && f[x].isFolder
    ensures var cs := ChildIds(f, x, hi, false);
      HandleDecision(f, [x], parentName, hi) ==
        if cs == [] then Answer(Message(FolderEmpty)) else FromMyFilesDecision(f, x, true, [], hi)
  {
  }

  /** A single folder with no live children is reported empty. */
  lemma SingleEmptyFolder(f: Files, x: Id, zipName: string, hi: nat)
    requires x in f && IsLive(f[x]) && f[x].isFolder
    requires forall c :: x < c < hi ==> !IsChild(f, c, x, false)
    ensures HandleDecision(f, [x], zipName, hi) == Answer(Message(FolderEmpty))
  {
    NoChildIds(f, x, hi, false);
  }

  /** Two or more ids make one zip of the live rows among them. */
  lemma SeveralZipped(f: Files, ids: seq<Id>, zipName: string, hi: nat)
    requires |ids| != 1
    ensures var d := HandleDecision(f, ids, zipName, hi);
      d.ZipOf? && d.zipName == zipName + ".zip" &&
      forall c: Id :: c in d.files <==> c < hi && c in f && IsLive(f[c]) && c in ids
  {
  }

  /** `downloadAsZip`: a new archive filled by `addFilesToZip` with no
      prefix, sent under `zipName`. */
  method DownloadAsZip(v: Vault, tmp: Scratch, files: seq<Id>, zipName: string) returns (r: Reply)
    requires v.Valid() && tmp.Valid() && forall c :: c in files ==> c < v.nextId
    modifies tmp
    ensures tmp.Valid()
    ensures r == Archive(zipName, Entries(Walk(v.files, files, "", v.nextId, -1), v.blobs))
    ensures tmp.next == old(tmp.next) + Stores(Walk(v.files, files, "", v.nextId, -1))
    ensures tmp.files.Keys == old(tmp.files).Keys + Span(old(tmp.next), tmp.next)
    ensures tmp.cleanup == old(tmp.cleanup) + Span(old(tmp.next), tmp.next)
  {
    var zip := new Zip();
    AddFilesToZip(v, zip, tmp, files, "", -1);
    r := Archive(zipName, zip.entries);
  }

  /** Carries out a decision. */
  method Perform(v: Vault, tmp: Scratch, d: Decision) returns (r: Reply)
    requires v.Valid() && tmp.Valid() && Below(d, v.nextId) && (d.StreamOne? ==> d.id in v.files)
    modifies tmp
    ensures tmp.Valid()
    ensures r == Outcome(d, v.files, v.blobs, v.nextId)
    ensures tmp.next == old(tmp.next) + Temps(d, v.files, v.nextId)
    ensures tmp.files.Keys == old(tmp.files).Keys + Span(old(tmp.next), tmp.next)
    ensures tmp.cleanup == old(tmp.cleanup) + Span(old(tmp.next), tmp.next)
  {
    match d {
      case Answer(reply) =>
        r := reply;
        assert Span(tmp.next, tmp.next) == {};
      case StreamOne(x) =>
        r := StreamSingle(v.files, v.blobs, x);
        assert Span(tmp.next, tmp.next) == {};
      case ZipOf(files, name) =>
        r := DownloadAsZip(v, tmp, files, name);
    }
  }

  /** `fromMyFiles`. */
  method FromMyFiles(v: Vault, tmp: Scratch, parent: Id, all: bool, ids: seq<Id>) returns (r: Reply)
    requires v.Valid() && tmp.Valid()
    modifies tmp
    ensures tmp.Valid()
    ensures var d := FromMyFilesDecision(v.files, parent, all, ids, v.nextId);
      r == Outcome(d, v.files, v.blobs, v.nextId) && tmp.next == old(tmp.next) + Temps(d, v.files, v.nextId)
    ensures tmp.cleanup == old(tmp.cleanup) + Span(old(tmp.next), tmp.next)
  {
    r := Perform(v, tmp, FromMyFilesDecision(v.files, parent, all, ids, v.nextId));
  }

  /** `sharedWithMe` and `sharedByMe`. */
  method FromShared(v: Vault, tmp: Scratch, user: UserId, byMe: bool, all: bool, ids: seq<Id>) returns (r: Reply)
    requires v.Valid() && tmp.Valid()
    modifies tmp
    ensures tmp.Valid()
    ensures var d := SharedDecision(v.files, v.shares, user, byMe, all, ids, v.nextId);
      r == Outcome(d, v.files, v.blobs, v.nextId) && tmp.next == old(tmp.next) + Temps(d, v.files, v.nextId)
    ensures tmp.cleanup == old(tmp.cleanup) + Span(old(tmp.next), tmp.next)
  {
    r := Perform(v, tmp, SharedDecision(v.files, v.shares, user, byMe, all, ids, v.nextId));
  }
}
