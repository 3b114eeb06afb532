# HamzaVaultX file tree, downloads and sizes in Dafny

HamzaVaultX is a Laravel file vault. Each user has a tree of folders, uploaded files and text notes. Entries can be:

- trashed (a soft delete) and restored;
- deleted for good;
- starred;
- shared with other users by e-mail;
- downloaded one by one or as a zip;
- previewed.

This project models that core and proves properties of the model:

- the `File` model's lifecycle;
- the `FileController` actions that change the tree;
- the `DownloadController` that decides between a message, a streamed file and a zip, and fills the zip;
- the size a `FileResource` shows.

The modules:

- `Types` (`types.dfy`) holds the rows of the four tables as values:
  - `files` rows are `Entry`;
  - `file_shares` rows are `ShareRow`;
  - `starred_files` rows are `Star`;
  - `users` rows are `User`.

  It also holds blobs as bytes, and `Reply`, how a request ends. An uncaught error (a null dereference, a missing class) ends as `Crash`. An `abort` ends as `Abort`.
- `Tree` (`tree.dfy`) holds the pure parts of `File.php`:
  - `isRoot`, `isOwnedBy` and the creating hook's path;
  - the queries (children, `find`, `whereIn`, `onlyTrashed`), read in id order;
  - the set of rows a permanent delete reaches.
- `Ordering` (`ordering.dfy`) models `ORDER BY ... DESC` on integer keys. It is an insertion sort, proved sorted and a permutation.
- `FileModel` (`file_model.dfy`) holds the class `Vault`. Its fields are the tables, the blob store and the id and storage-serial counters. Its methods, with `modifies` clauses, are:
  - `appendNode`;
  - the upload to the store;
  - `moveToTrash` and `restore`;
  - the recursive `deleteForever` (child before parent, with shares, stars and blobs);
  - `deleteFilesFromStorage`.

  `Valid()` says that ids are below the counter and that every parent's id is below its child's. Rows are created after their parents, so both hold.
- `FileController` (`file_controller.dfy`) models the controller actions as methods on a `Vault`. Each is proved against specification functions: `WithRoot`, `Listing`, `PlantItems`, `TrashIds`, `TrashSelection`, `RestoreRows`, `Toggled`, `NewShares`, `NoteGuard`, `DownloadNote` and `PreviewFile`. The lemmas beside them state the promised properties.
- `DownloadController` (`download_controller.dfy`) has two parts:
  - the case analysis of the three entry points and `handleDownload`, as a `Decision`;
  - the depth-first walk of `addFilesToZip`, as the function `Walk`. The method `AddFilesToZip` fills a `Zip` object and a `Scratch` temp directory, and is proved equal to `Walk`.
- `FileResource` (`file_resource.dfy`) covers the recursive `getTotalSize`, which adds into the `totalSize` field, and the integer part of `formatBytes`.

Outside values are parameters:

- Store keys are `BlobKey(owner, serial)`. A new serial per upload stands for the unique name the store picks.
- `Str::slug` is the vault's `slug` function.
- `now()` is an `int` parameter.
- The database's `LIKE` is a `like` parameter.

`isRoot` (`app/Models/File.php:91-94`) is the predicate `Tree.IsRoot`. `isOwnedBy` (`app/Models/File.php:101-104`) is `Tree.IsOwnedBy`. They have no contracts of their own. The other members use them.

Two points where the written description of the system and the code differ. The model follows the code in both:

- The root folder created by `getRoot` gets no path, because the creating hook returns early for a row without a parent. The description says it gets the empty string.
- Bulk restore and bulk permanent delete with `all` act on the trashed rows of every user, because `onlyTrashed()->get()` has no owner filter. This is kept as written: see `FileController.TrashSelection`.

## Model

| member | source | states |
|---|---|---|
| Tree.HookPath | app/Models/File.php:201-211 | A row created without a parent gets no path. With a parent the path ends in the slug of its name. It depends only on the parent row and the name. |
| Tree.PathIsSlugChain | app/Models/File.php:210 | When every row up the chain was made through the hook, a non-root row's path is the slugs of the names from below the root down to it, joined by "/". |
| Tree.ChildIds | app/Models/File.php:127 | The children query returns exactly the rows whose parent is `p`, with or without the trashed ones, in ascending id order. |
| Tree.ChildIdsComplete | app/Models/File.php:127 | Every child of `p` is listed when the ids are bounded and parents precede children. |
| Tree.NoChildIds | app/Http/Controllers/DownloadController.php:100 | A row with no child gets an empty children list. |
| Tree.Select | app/Http/Controllers/FileController.php:266 | A query returns exactly the rows that match its filter, in ascending id order. |
| Tree.FirstOf | app/Http/Controllers/FileController.php:163-166 | `first()` gives the lowest matching id, or nothing when no row matches. |
| Tree.SubtreeOfFolder | app/Models/File.php:125-130 | A folder's purge reaches the folder and the subtrees of all its children, trashed ones included. |
| Tree.SubtreeOfLeaf | app/Models/File.php:125 | A non-folder's purge reaches only itself. |
| Tree.FolderSplit | app/Models/File.php:125-143 | A folder's subtree is its children's subtrees plus the folder. Once those are gone, the folder is alone in its own subtree, so it is purged last. |
| Tree.SubtreeWithout | app/Models/File.php:128-129 | Once the earlier children's subtrees are gone, a later child still reaches the rest of its own subtree. Removing children one after another therefore removes the union of their subtrees. |
| Tree.UnionSubtreesMembers | app/Http/Controllers/FileController.php:287-289 | A row is purged by the loop exactly when it lies in the subtree of one of the rows the loop visits. |
| Tree.SharesWithout | app/Models/File.php:134 | The surviving share rows are exactly those that name no removed file. |
| Tree.SharesWithoutTwice | app/Models/File.php:134 | Deleting the share rows of `a` and then those of `b` is deleting those of `a + b`. |
| Tree.StarsWithout | app/Models/File.php:135 | The surviving stars are exactly those that name no removed file. |
| Ordering.SortDesc | app/Models/File.php:177-178 | The result is in descending key order and is a permutation of the input. |
| Ordering.LexTotal | app/Models/File.php:177-178 | Two sort keys are equal or one is lexicographically smaller, so `ORDER BY` over them is total. |
| FileModel.NewRow | app/Models/File.php:205-210 | An appended row hangs under the given parent and belongs to the acting user. It is live, takes the hook's path and keeps every given field. |
| FileModel.TrashThenRestore | app/Models/File.php:111-116 | Restoring a trashed row gives back the row as it was, apart from `updated_at`. |
| FileModel.BlobKeysOne | app/Models/File.php:138-140 | A purged row frees a blob only when it is a regular file with a `storage_path`. Folders and notes free none. |
| FileModel.BlobKeysOfSubtree | app/Models/File.php:123-140 | The blobs a purge frees are the blobs of the files in the subtree: none for a note or a folder of its own. |
| FileModel.JoinShares | app/Models/File.php:174-176 | The join holds one row per share row of a live file that passes the user filter (recipient, or creator for shared-by-me). |
| FileModel.SharedWithMe | app/Models/File.php:172-179 | The files shared with the user, sorted by share `created_at` DESC and then file id DESC. It is a permutation of the join. |
| FileModel.SharedByMe | app/Models/File.php:187-194 | The shared files the user created, in the same order. It is a permutation of the join. |
| FileModel.Vault.Children | app/Models/File.php:156 | `$file->children` is exactly the live children, ascending, each id between the parent's id and the counter. |
| FileModel.Vault.Append | app/Http/Controllers/FileController.php:222 | `appendNode` stores the new row under the next id, changes nothing else, and keeps the vault valid. |
| FileModel.Vault.StoreBlob | app/Http/Controllers/FileController.php:214 | An upload stores the bytes under a key the store never used, in the user's directory. |
| FileModel.Vault.MoveToTrash | app/Models/File.php:111-116 | Only this row changes: it is trashed. Its children, every other row and every other table stay the same. |
| FileModel.Vault.Restore | app/Http/Controllers/FileController.php:263 | Only this row changes: it is live again. |
| FileModel.Vault.DeleteForever | app/Models/File.php:123-144 | The purge removes the row's whole subtree, trashed rows included. It also removes every share row and star of those rows and the blobs of their regular files, and nothing else. |
| FileModel.Vault.PurgeRow | app/Models/File.php:133-143 | For a row with nothing below it, the row, its share rows, its stars and its own blob go. Nothing else changes. |
| FileModel.Vault.DeleteEachForever | app/Http/Controllers/FileController.php:287-289 | Purging rows one after another removes the union of their subtrees, with their shares, stars and blobs. |
| FileModel.Vault.DeleteFilesFromStorage | app/Models/File.php:152-164 | The blobs of all regular files under the given rows, through live children, are deleted. Rows, shares and stars are unchanged. |
| FileModel.Vault.DeleteFromStorage | app/Models/File.php:154-162 | One step of `deleteFilesFromStorage`: the blobs under one row are deleted. |
| FileController.FindRoot | app/Http/Controllers/FileController.php:163-166 | The root lookup gives a live parentless row of the user, or tells that there is none. |
| FileController.NewRootHasNoPath | app/Http/Controllers/FileController.php:169-173 | The root `getRoot` creates is a live folder of the user, named after the e-mail, with no path. |
| FileController.GetRootIdempotent | app/Http/Controllers/FileController.php:161-177 | After one `getRoot` the user has a root, and a second `getRoot` changes nothing. |
| FileController.GetRoot | app/Http/Controllers/FileController.php:161-177 | Returns the user's root. It creates exactly one root row, named after the e-mail, only when there was none. Nothing else changes. |
| FileController.ParentOrRoot | app/Http/Controllers/FileController.php:143-145 | A given parent is used as is. Otherwise the user's root is used, created if missing. |
| FileController.Listing | app/Http/Controllers/FileController.php:45-60 | The My Files rows are sorted by `is_folder`, `created_at` and id, all DESC, each row once. With a search term they are all the user's live rows whose name matches; otherwise the live rows of the folder. With `favourites`, only the rows the user starred. |
| FileController.TrashThenRestoreListing | app/Http/Controllers/FileController.php:45-56 | Trashing a live row and restoring it leaves every listing as it was. |
| FileController.TrashedNotListed | app/Http/Controllers/FileController.php:45-56 | A trashed row shows in no listing. |
| FileController.Index | app/Http/Controllers/FileController.php:29-80 | A truthy folder path is looked up among the user's live rows, and a missing one is a 404 page. Otherwise the root is used, created if missing. The page holds the listing of that folder. |
| FileController.CreateFolder | app/Http/Controllers/FileController.php:118-131 | One new folder row under the parent (or under the root, created if missing), with the hook's path. Nothing else changes. |
| FileController.NodeExtends | app/Http/Controllers/FileController.php:187-202 | Saving an upload node adds exactly its rows (one per folder and per file) and one blob per file, owned by the user. Every earlier row and blob is kept unchanged. |
| FileController.ItemsExtends | app/Http/Controllers/FileController.php:187-202 | The same for a list of nodes: the counts add up and earlier rows and blobs are kept. |
| FileController.NodePlanted | app/Http/Controllers/FileController.php:189-199 | Every row a node creates is live and owned by the user. Its parent is the target folder or a folder created earlier in the same upload, and its path comes from that parent. |
| FileController.ItemsPlanted | app/Http/Controllers/FileController.php:187-202 | The same for a list of nodes. |
| FileController.PlantFolder | app/Http/Controllers/FileController.php:190-197 | A folder node is its own folder row, followed by its items saved beneath that row. |
| FileController.SaveFile | app/Http/Controllers/FileController.php:212-223 | Stores the bytes, then appends one file row with the name, mime, byte size and key. The new state is the plan for one file node. |
| FileController.SaveNode | app/Http/Controllers/FileController.php:189-200 | One entry of the tree: a folder with its contents, or a file. The new state is the plan for that node. |
| FileController.SaveFolder | app/Http/Controllers/FileController.php:190-197 | Appends the folder row, then saves its contents beneath it. |
| FileController.SaveFileTree | app/Http/Controllers/FileController.php:187-202 | Saves the entries in order. The new rows and blobs are exactly the plan for the whole tree. |
| FileController.SaveFiles | app/Http/Controllers/FileController.php:150-152 | Saves a flat list of uploads under one parent, in order. |
| FileController.StoreFiles | app/Http/Controllers/FileController.php:136-154 | Resolves the parent (the root if none), then saves the tree if one was sent, otherwise the flat files. |
| FileController.TrashIds | app/Http/Controllers/FileController.php:242-244 | The bulk trash by ids keeps every key. Rows not named stay the same; each named row is unchanged or trashed. |
| FileController.TrashIdsTrashes | app/Http/Controllers/FileController.php:242-244 | When the loop completes, every named row is trashed. |
| FileController.TrashIdsOkOnly | app/Http/Controllers/FileController.php:243 | The loop completes only if the ids are distinct and all name live rows. Any other id is a `find` that returns null. |
| FileController.TrashIdsOkIf | app/Http/Controllers/FileController.php:243 | Distinct ids of live rows always let the loop complete. |
| FileController.TrashIdsSucceeds | app/Http/Controllers/FileController.php:242-244 | The loop completes exactly when the ids are distinct and all name live rows. |
| FileController.StopsHere | app/Http/Controllers/FileController.php:243 | The loop stops at the first id `find` cannot see. The rows trashed before it stay trashed. |
| FileController.Destroy | app/Http/Controllers/FileController.php:230-248 | With `all`, every live child of the parent is trashed and nothing else changes; with no parent row it is an error with no change. With ids, the rows end as `TrashIds` says, and a missing or repeated id ends in an error. With no parent row, the ids are trashed first and the request then fails at the redirect. Otherwise it redirects to the parent's path. |
| FileController.TrashChildren | app/Http/Controllers/FileController.php:235-240 | With `all`, exactly the live children of the parent are trashed. Every other row and every other table is unchanged. |
| FileController.TrashEach | app/Http/Controllers/FileController.php:241-245 | The ids loop ends as `TrashIds` says: the same rows, and failure exactly when `TrashIds` fails. |
| FileController.TrashSelection | app/Http/Controllers/FileController.php:261-266 | The selection is exactly the trashed rows (with `all`, of all users) or the trashed rows among the ids, ascending. |
| FileController.RestoreRows | app/Http/Controllers/FileController.php:262-269 | Every selected row is live again and every other row is unchanged. |
| FileController.RestoreAllEmptiesTrash | app/Http/Controllers/FileController.php:260-264 | After restoring with `all`, no trashed row is left. |
| FileController.RestoreByIdsLeaves | app/Http/Controllers/FileController.php:266-269 | After restoring by ids, the trashed rows are exactly those that were trashed and not named. |
| FileController.RestoreTrash | app/Http/Controllers/FileController.php:255-273 | Restores the selection, changes no other table and redirects to the trash page. |
| FileController.PurgedExactly | app/Http/Controllers/FileController.php:285-295 | A row survives the bulk purge exactly when it lies under none of the selected rows. |
| FileController.DeleteTrashForever | app/Http/Controllers/FileController.php:280-298 | Removes the subtrees of the selection with their shares, stars and blobs, and redirects to the trash page. |
| FileController.Toggled | app/Http/Controllers/FileController.php:312-323 | The star is added when absent and removed when present. Every other star stays as it was. |
| FileController.ToggleTwice | app/Http/Controllers/FileController.php:312-323 | Two toggles give back the original star set. |
| FileController.ToggleFavourite | app/Http/Controllers/FileController.php:305-326 | Toggles the caller's star on a live row and goes back. A row `find` cannot see is a null dereference and changes nothing. |
| FileController.UserByEmail | app/Http/Controllers/FileController.php:342 | The user with that e-mail and the lowest id, or none when no user has it. |
| FileController.ShareSelection | app/Http/Controllers/FileController.php:351-355 | With `all`, the parent's live children; otherwise the live rows among the ids; both ascending. |
| FileController.NewShares | app/Http/Controllers/FileController.php:357-375 | The inserted rows: one per selected file not yet shared with the target, stamped now, never two for one file. |
| FileController.ShareKeepsPairsUnique | app/Http/Controllers/FileController.php:357-378 | Sharing never creates a second row for a (file, user) pair. |
| FileController.ShareAgainAddsNothing | app/Http/Controllers/FileController.php:357-375 | Sharing the same selection with the same user again inserts nothing. |
| FileController.CollectShares | app/Http/Controllers/FileController.php:363-375 | The loop builds exactly `NewShares`. |
| FileController.Share | app/Http/Controllers/FileController.php:333-390 | An unknown e-mail changes nothing. No selection gives the message and inserts nothing. `all` with no parent row is an error that inserts nothing; the ids branch never reads the parent. Otherwise the new rows are appended, and mail goes to the target only when rows were added. |
| FileController.NoteEntry | app/Http/Controllers/FileController.php:458-464 | A note row is a non-folder of type note with no key, mime `text/plain`, the content, and size = its byte length. |
| FileController.NoteGuard | app/Http/Controllers/FileController.php:480-488 | 404 for a row route binding cannot see, then 403 for a non-owner, then 400 for a non-note; no error exactly for the owner's live note. |
| FileController.DownloadNote | app/Http/Controllers/FileController.php:529-549 | The guard's error, or a stream named `name + ".txt"` holding the note's text ("" when null). |
| FileController.NoteEdited | app/Http/Controllers/FileController.php:492-495 | The edited note keeps its type, owner, place and trash state. It takes the new name and content, and size = the content's length. |
| FileController.StoredNoteDownloads | app/Http/Controllers/FileController.php:450-469 | A stored note downloads as `name + ".txt"` with exactly the stored content. |
| FileController.EditedNoteDownloads | app/Http/Controllers/FileController.php:490-495 | After an edit the note downloads with the new name and content. |
| FileController.OnlyOwnerDownloads | app/Http/Controllers/FileController.php:532-539 | Only the owner of a note downloads its text. |
| FileController.StoreNote | app/Http/Controllers/FileController.php:450-469 | A truthy missing parent is a 404 and changes nothing. Otherwise one note row is appended under the parent (or the root, created if missing), and it downloads as stored. |
| FileController.UpdateNote | app/Http/Controllers/FileController.php:478-498 | The guard's error changes nothing. Otherwise only the note row changes, to `NoteEdited`. |
| FileController.DeleteNote | app/Http/Controllers/FileController.php:506-521 | The guard's error changes nothing. Otherwise only the note row changes: it is trashed. |
| FileController.DeletedNoteNotFound | app/Http/Controllers/FileController.php:518 | A deleted note is a 404 for every later note action. |
| FileController.PreviewFile | app/Http/Controllers/FileController.php:557-604 | Without owner or share access, 403. A note gives its name and text. A file with a key gives its name, mime and key. A file without a key gives 404. |
| FileController.PreviewFileAsWritten | app/Http/Controllers/FileController.php:578-600 | As written, the answer agrees with `PreviewFile` except on files with a key, where it is an error. |
| FileController.PreviewOfStoredFileFails | app/Http/Controllers/FileController.php:581 | Every preview that should return a file link ends in an error as written. |
| FileController.PreviewFailsForOwner | app/Http/Controllers/FileController.php:581 | A concrete owner previewing their own PDF gets an error instead of the link. |
| FileController.NotePreviewMatchesDownload | app/Http/Controllers/FileController.php:569-575 | The owner's note preview shows the same text a note download gives. |
| DownloadController.Fetch | app/Http/Controllers/DownloadController.php:184 | The stored bytes under the key, or the empty file when the key is missing (and, assumed, when it is null). |
| DownloadController.WalkOnePrefixed | app/Http/Controllers/DownloadController.php:175-186 | Every entry one file contributes starts with the prefix it was given. |
| DownloadController.WalkPrefixed | app/Http/Controllers/DownloadController.php:170-188 | Every entry of the walk starts with the prefix it was given. |
| DownloadController.FolderEntriesNested | app/Http/Controllers/DownloadController.php:175-176 | Every entry of a folder lies under `prefix + name + "/"`. |
| DownloadController.EmptyFolderAddsNothing | app/Http/Controllers/DownloadController.php:174-176 | A folder with no live children adds no entry. |
| DownloadController.Zip.AddFromString | app/Http/Controllers/DownloadController.php:180 | Appends one entry with the given name and bytes. |
| DownloadController.Zip.AddFile | app/Http/Controllers/DownloadController.php:185 | Appends one entry holding the temp file's bytes. |
| DownloadController.Scratch.TempNam | app/Http/Controllers/DownloadController.php:183 | A new empty temp file under a name never handed out before. |
| DownloadController.Scratch.Put | app/Http/Controllers/DownloadController.php:184 | Writes the bytes into the temp file. |
| DownloadController.Scratch.Register | app/Http/Controllers/DownloadController.php:192-198 | Every listed temp file is registered for unlinking. |
| DownloadController.AddOne | app/Http/Controllers/DownloadController.php:174-187 | One file of the loop adds exactly its part of the walk. A regular file makes one temp file, handed back to the loop; a folder registers its own. |
| DownloadController.AddFilesToZip | app/Http/Controllers/DownloadController.php:170-199 | The archive gains exactly the walk's entries, in order, under prefixed names. One temp file is made per regular file at any depth, and each is registered for unlinking. |
| DownloadController.HandleDecision | app/Http/Controllers/DownloadController.php:96-115 | One id: a row `find` cannot see is an error; a folder is "The folder is empty." or a zip of its children named `name + ".zip"`; anything else is streamed. Several ids: a zip of the live rows among them named `zipName + ".zip"`. |
| DownloadController.FromMyFilesDecision | app/Http/Controllers/DownloadController.php:18-35 | No selection gives the message, without reading the parent. Any selection with no parent row is an error. `all` gives a zip of the parent's live children named `parent.name + ".zip"`. Otherwise `handleDownload` runs under the parent's name. |
| DownloadController.SharedDecision | app/Http/Controllers/DownloadController.php:42-61 | No selection gives the message. `all` zips the shared listing as `shared-with-me.zip` or `shared-by-me.zip`. Otherwise `handleDownload` runs under that name. |
| DownloadController.StreamSingle | app/Http/Controllers/DownloadController.php:123-138 | A note streams as `name + ".txt"` with its text ("" when null). Any other file streams exactly when its key is present in the store, and then streams those bytes under its name. Otherwise it fails. |
| DownloadController.SingleStoredFileDownloads | app/Http/Controllers/DownloadController.php:108-109 | One live stored file picked in My Files downloads under its name with exactly the bytes stored under its key. |
| DownloadController.MissingBlobFails | app/Http/Controllers/DownloadController.php:137 | One live file whose key is null or absent from the store ends in an error. |
| DownloadController.MissingParentFails | app/Http/Controllers/DownloadController.php:30-34 | A selection with no parent row ends in an error, because the parent's children or name is read from null. |
| DownloadController.NothingSelected | app/Http/Controllers/DownloadController.php:26-28 | With neither `all` nor ids, every entry point gives "select at least one" and builds nothing. |
| DownloadController.SingleFileStreamed | app/Http/Controllers/DownloadController.php:108-109 | A single live non-folder id is streamed, never zipped. |
| DownloadController.SingleFolderLikeAll | app/Http/Controllers/DownloadController.php:99-105 | A single folder gives the same zip as `all` from inside it: its children, with no directory around them. The exception is an empty folder. |
| DownloadController.SingleEmptyFolder | app/Http/Controllers/DownloadController.php:100-102 | A single folder with no live children gives "The folder is empty.". |
| DownloadController.SeveralZipped | app/Http/Controllers/DownloadController.php:112-114 | Any other number of ids gives one zip named `zipName + ".zip"` of exactly the live rows among them. |
| DownloadController.DownloadAsZip | app/Http/Controllers/DownloadController.php:148-159 | A new archive filled with the walk from an empty prefix, sent under the zip name. The temp files it made are all registered. |
| DownloadController.Perform | app/Http/Controllers/DownloadController.php:30-34 | Carrying out a decision gives the reply the decision describes, with as many temp files as regular files zipped. |
| DownloadController.FromMyFiles | app/Http/Controllers/DownloadController.php:18-35 | The My Files download gives the reply of its decision, and registers every temp file it made. |
| DownloadController.FromShared | app/Http/Controllers/DownloadController.php:68-87 | The shared-by-me (and shared-with-me) download gives the reply of its decision, and registers every temp file it made. |
| FileResource.SumSizesAppend | app/Http/Resources/FileResource.php:77-83 | The loop's sum over two runs of children is the sum of the two sums. |
| FileResource.SumSizesCovers | app/Http/Resources/FileResource.php:77-83 | No child counts more than the sum. |
| FileResource.FileTotal | app/Http/Resources/FileResource.php:84-86 | A non-folder's total is its `size`, with null as 0. |
| FileResource.EmptyFolderTotal | app/Http/Resources/FileResource.php:76-83 | A folder with no live children totals 0, whatever its own `size`. |
| FileResource.ChildWithinFolder | app/Http/Resources/FileResource.php:76-83 | A folder totals at least as much as any of its live children. |
| FileResource.FileResource.constructor | app/Http/Resources/FileResource.php:17 | The accumulator starts at 0. |
| FileResource.FileResource.GetTotalSize | app/Http/Resources/FileResource.php:74-89 | Adds exactly the row's total to the accumulator and returns the accumulator. It never goes down. |
| FileResource.DivisorIsPower | app/Http/Resources/FileResource.php:63 | The divisor `1 << (10 * k)` is `1024^k`. |
| FileResource.UnitFrom | app/Http/Resources/FileResource.php:60-61 | The unit index found is at most 4, its power of 1024 is not above the bytes, and the next power is (below TB). |
| FileResource.FormatBytes | app/Http/Resources/FileResource.php:53-66 | The fixed text comes back exactly for 0. Any other total is scaled. |
| FileResource.ZeroBytes | app/Http/Resources/FileResource.php:55-57 | The text is "0 B" exactly when the total is 0. |
| FileResource.UnitChosen | app/Http/Resources/FileResource.php:59-63 | A positive total takes the largest unit up to TB whose power of 1024 is not above it, and is divided by that power. The shown number is at least 1 and, below TB, under 1024. |
| FileResource.DisplayedSize | app/Http/Resources/FileResource.php:26-35 | The size a row shows is its true total, formatted, since a fresh resource sums from 0. |

## Left out

- The object store (Cloudflare R2) is a map from key to bytes. Uploads, reads, deletes and downloads change or read that map. Network failures are not modelled.
- FileController.PreviewFile: the signed URL (`temporaryUrl`, or `url` in the fallback) is a foreign call. The reply carries the key instead of the URL.
- `ZipArchive` internals, compression and duplicate entry names are not modelled. The archive is its list of (name, bytes) entries.
- The temp zip file of `downloadAsZip`, `deleteFileAfterSend`, and when shutdown functions run are not modelled. `Scratch.cleanup` records only which temp files are registered.
- Mail delivery: `FileController.Share` outputs whom it would mail (`mailTo`). A mail failure is caught in the source and undoes nothing, so the shares stand either way.
- Inertia pages, JSON shapes, pagination (`paginate(10)`), `diffForHumans`, the ancestors list and `toArray`'s other fields are not modelled.
- The `trash()`, `sharedWithMe()` and `sharedByMe()` page listings of `FileController` are not modelled. They are paginated views; their ordering comes from `FileModel.SharedWithMe` and `FileModel.SharedByMe`.
- FileResource.FormatBytes: only the integer part is modelled (the unit index, the divisor, the unit). The float division, `round(…, 2)` and the printing of the number are not. The model takes the exact `floor(log_1024 bytes)`, so it does not model float `log` rounding at exact powers of 1024.
- FileResource.FileResource.GetTotalSize: integers are unbounded, so overflow of a 64-bit total is not modelled.
- The nested-set library (`appendNode`, `makeRoot`, `ancestors`) and `HasCreatorAndUpdater` are modelled only as "set the parent, the creator is the acting user". Their `_lft`/`_rgt` columns and `updated_by` are not modelled.
- FileController.RestoreRows: the nested-set `restored` hook also restores a row's descendants trashed at or after the row itself. That cascade is library code and is not modelled, so "every other row is unchanged" here and in `FileController.RestoreByIdsLeaves` holds only without it.
- The request validation classes (`FileActionsRequest`, `StoreFileRequest`, …) are not part of this model, and neither is how they resolve `$request->parent`. The model's operations take any ids. A `parent` id that names no row stands for a null `$parent`, and reading it is an error at the point the code reads it: `destroy` with ids trashes them and then fails at line 247, and `share` fails only with `all`. Ownership of the parent is not checked.
- `LIKE` matching and `Str::slug` are abstract functions given as parameters.
- Queries without `ORDER BY` (children, `whereIn`, `onlyTrashed`, `first()`) are read in id order.
- Timestamps are one `now` per request.
- `Storage::get` of a missing key returns null, and an empty temp file is written (`DownloadController.Fetch`). A null `storage_path` is assumed to behave the same way. It does not arise for uploads, since every uploaded row gets a key.
- A call on a null model and a missing class are both `Crash`. The model does not tell which error page results.
- The upload's bytes, name and mime are given values. `UploadedFile::store` becomes `Vault.StoreBlob`.
- `debug-error.php`, `test-r2-connection.php`, `routes/web.php`, the JavaScript client and the build configuration are not part of this model.

## Findings

| source | as written | input that shows it | evidently intended | confidence | as-written member | corrected member |
|---|---|---|---|---|---|---|
| app/Http/Controllers/FileController.php:581 | `previewFile` uses `Storage` without importing it (lines 5-20 import no `Storage`). Inside the namespace `App\Http\Controllers` the name resolves to a class that does not exist. The resulting `Error` is not an `\Exception`, so the `catch` at line 591 does not take it, and the fallback at line 598 has the same fault. | The owner previews their own regular file that has a `storage_path` (`PreviewFailsForOwner`: a PDF with key `BlobKey(1, 0)`). | A JSON answer with the file's name, mime and a link to its key. | high, not executed | FileController.PreviewFileAsWritten | FileController.PreviewFile |
