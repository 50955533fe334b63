/** The part of the operating system the storage code leans on: a disk holding
    named byte buffers, Python 2's built-in `open` in the three modes the code
    uses, and the file objects `open` returns. */
module Os {
  import opened Bytes
  import opened Results

  /** The open modes of Storage: 'w+bx' (exclusive create, read-write; Python 2
      hands the mode to C's `fopen`, where `x` means fail if the file exists),
      'rb' (read-only) and 'r+b' (read-write). */
  datatype Mode = CreateExclusive | ReadOnly | ReadWrite {
    predicate Writable() { this != ReadOnly }
  }

  /** Why `open(path, mode)` fails on a disk holding `files`, if it does: an
      exclusive create finds the file already there, the other modes find it missing. */
  function OpenFailure(files: map<string, seq<byte>>, path: string, mode: Mode): (e: Option<Error>)
    ensures e.Some? <==> (path in files <==> mode == CreateExclusive)
    ensures e.Some? ==> e.value == if mode == CreateExclusive then AlreadyExists else NotFound
  {
    if mode == CreateExclusive then
      if path in files then Some(AlreadyExists) else None
    else
      if path in files then None else Some(NotFound)
  }

  /** The disk after `open(path, mode)`: only a successful exclusive create changes
      it, by adding an empty file. */
  function FilesAfterOpen(files: map<string, seq<byte>>, path: string, mode: Mode): (r: map<string, seq<byte>>)
    ensures OpenFailure(files, path, mode).None? ==> path in r && (mode == CreateExclusive ==> r[path] == [])
    ensures forall p :: p in files ==> p in r && r[p] == files[p]
    ensures forall p :: p in r ==> p in files || (p == path && mode == CreateExclusive)
  {
    if mode == CreateExclusive && path !in files then files[path := []] else files
  }

  class Disk {
    var files: map<string, seq<byte>>

    constructor (files: map<string, seq<byte>>)
      ensures this.files == files
    {
      this.files := files;
    }

    /** Python 2's `open(path, mode)`. */
    method Open(path: string, mode: Mode) returns (r: Result<File>)
      modifies this
      ensures files == FilesAfterOpen(old(files), path, mode)
      ensures r.Err? <==> OpenFailure(old(files), path, mode).Some?
      ensures r.Err? ==> r.error == OpenFailure(old(files), path, mode).value
      ensures r.Ok? ==> fresh(r.value) && r.value.disk == this && r.value.path == path
                        && r.value.writable == mode.Writable() && !r.value.closed
    {
      var failure := OpenFailure(files, path, mode);
      if failure.Some? {
        return Err(failure.value);
      }
      files := FilesAfterOpen(files, path, mode);
      var f := new File(this, path, mode.Writable());
      r := Ok(f);
    }
  }

  /** An open file object: which disk and path it refers to, whether its mode
      allows writing, and whether it has been closed. */
  class File {
    const disk: Disk
    const path: string
    const writable: bool
    var closed: bool

    constructor (disk: Disk, path: string, writable: bool)
      ensures this.disk == disk && this.path == path && this.writable == writable && !closed
    {
      this.disk := disk;
      this.path := path;
      this.writable := writable;
      closed := false;
    }

    /** The file still exists on its disk. */
    ghost predicate Valid()
      reads disk
    {
      path in disk.files
    }
  }
}
