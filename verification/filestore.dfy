/**
 The serving directory as an abstract file store. The handlers reach the file
 system through `os.Open` + `io.ReadAll` and `os.Create` + `Write`; here a
 store maps full file paths to contents, and two sets name the paths at which
 reading or writing fails for a reason other than the file being absent
 (permissions, a directory in the way, a full disk).
 */
module FileStore {
  import opened Bytes

  datatype Store = Store(files: map<Bytes, Bytes>, unreadable: set<Bytes>, unwritable: set<Bytes>)

  /** The outcomes the read handler tells apart: the contents, a missing file, any other failure. */
  datatype ReadResult = Contents(data: Bytes) | NotExist | OtherError

  /** Open and read the whole file at `path`. */
  function Read(fs: Store, path: Bytes): (r: ReadResult)
    ensures r.Contents? <==> path in fs.files && path !in fs.unreadable
    ensures r.Contents? ==> r.data == fs.files[path]
    ensures r == NotExist <==> path !in fs.files && path !in fs.unreadable
  {
    if path in fs.unreadable then OtherError
    else if path in fs.files then Contents(fs.files[path])
    else NotExist
  }

  /**
   Create (or truncate) the file at `path` and write `data` to it; None when
   that fails. Afterwards the written path reads back exactly `data` (unless
   reading it fails) and every other path reads as before.
   */
  function Write(fs: Store, path: Bytes, data: Bytes): (r: Option<Store>)
    ensures r.None? <==> path in fs.unwritable
    ensures r.Some? ==> r.value.files.Keys == fs.files.Keys + {path}
    ensures r.Some? ==> r.value.unreadable == fs.unreadable && r.value.unwritable == fs.unwritable
    ensures r.Some? && path !in fs.unreadable ==> Read(r.value, path) == Contents(data)
    ensures r.Some? ==> forall other :: other != path ==> Read(r.value, other) == Read(fs, other)
  {
    if path in fs.unwritable then None
    else Some(fs.(files := fs.files[path := data]))
  }
}
