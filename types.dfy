/** Values shared by every part of the model: the rows of the `files`,
    `file_shares`, `starred_files` and `users` tables, blob keys and bytes. */
module Types {

  datatype Option<T> = None | Some(value: T) {
    /** PHP's `$x ?? $default`. */
    function GetOr(default: T): T {
      match this
      case Some(v) => v
      case None => default
    }
  }

  /** PHP strings are byte strings; note contents and blobs are bytes. */
  newtype Byte = b: int | 0 <= b < 256
  type Bytes = seq<Byte>

  /** Auto-increment primary keys. */
  type Id = nat
  type UserId = nat

  /** An opaque `storage_path`: the directory of the uploading user and a
      serial that the object store never hands out twice. */
  datatype BlobKey = BlobKey(owner: UserId, serial: nat)

  /** The `type` column: 'file' (the default) or 'note'. */
  datatype Kind = Regular | Note

  /** One row of the `files` table. */
  datatype Entry = Entry(
    name: string,
    isFolder: bool,
    kind: Kind,
    mime: Option<string>,
    size: Option<nat>,
    storagePath: Option<BlobKey>,
    noteContent: Option<Bytes>,
    path: Option<string>,
    parentId: Option<Id>,
    createdBy: UserId,
    createdAt: int,
    updatedAt: int,
    deletedAt: Option<int>)

  /** One row of `file_shares`: `fileId` is shared with `userId`. */
  datatype ShareRow = ShareRow(fileId: Id, userId: UserId, createdAt: int)

  /** One row of `starred_files`. */
  datatype Star = Star(fileId: Id, userId: UserId)

  datatype User = User(email: string, name: string)

  /** One entry of a zip archive: its name inside the archive and its bytes. */
  datatype ZipEntry = ZipEntry(name: string, content: Bytes)

  /** How a request ends, as far as the model follows it. */
  datatype Reply =
    | Back                                       // `back()`
    | Redirect(route: string, folder: Option<string>)  // `to_route(route, ['folder' => ...])`
    | Message(text: string)                      // `['message' => ...]`
    | Abort(status: nat, reason: string)         // `abort(status, reason)`
    | Crash                                      // an uncaught error: status 500
    | Stream(filename: string, content: Bytes)   // a single download
    | Archive(filename: string, entries: seq<ZipEntry>)  // a zip download
    | NotePreview(name: string, content: Bytes)
    | FilePreview(name: string, mime: Option<string>, key: BlobKey)

  /** The soft-delete scope: a row is visible to ordinary queries when
      `deleted_at` is null. */
  predicate IsLive(e: Entry) {
    e.deletedAt.None?
  }

  /** Only real files own a blob: not folders, not notes, and only when a
      `storage_path` is set. */
  predicate StoresBlob(e: Entry) {
    !e.isFolder && e.kind != Note && e.storagePath.Some?
  }

  /** PHP truthiness of a string: "" and "0" are false. */
  predicate Truthy(s: string) {
    s != "" && s != "0"
  }
}
