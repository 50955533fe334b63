/** The filesystem-backed item store: Storage resolves an item name to a `.data`
    and a `.meta` file and opens them; an Item bundles a Data handle (random-access
    bytes) and a Meta handle (a dict loaded whole and written back whole). */
module Filesystem {
  import opened Bytes
  import opened Results
  import opened Dicts
  import opened Codec
  import opened Os

  // ---------------------------------------------------------------- names and paths

  /** The file holding an item's bytes. */
  function DataPath(directory: string, name: string): string {
    directory + "/" + name + ".data"
  }

  /** The file holding an item's serialised metadata. */
  function MetaPath(directory: string, name: string): string {
    directory + "/" + name + ".meta"
  }

  /** Different names never share a file, and no data file is a metadata file. */
  lemma PathsDistinct(directory: string, name: string, other: string)
    ensures DataPath(directory, name) != MetaPath(directory, other)
    ensures name != other ==> DataPath(directory, name) != DataPath(directory, other)
    ensures name != other ==> MetaPath(directory, name) != MetaPath(directory, other)
  {
    if |name| == |other| {
      var at := |directory| + |name| + 2;
      assert DataPath(directory, name)[at] == 'd' && MetaPath(directory, other)[at] == 'm';
      var start := |directory| + 1;
      assert DataPath(directory, name)[start..start + |name|] == name;
      assert DataPath(directory, other)[start..start + |other|] == other;
      assert MetaPath(directory, name)[start..start + |name|] == name;
      assert MetaPath(directory, other)[start..start + |other|] == other;
    }
  }

  // ---------------------------------------------------------------- opening both files

  /** Why `Storage._open(name, mode)` fails before any handle exists, if it does:
      a bad name, or the first of the two opens (data, then meta) that fails. */
  function ItemFailure(files: map<string, seq<byte>>, directory: string, name: string, mode: Mode): Option<Error> {
    if '/' in name then Some(InvalidName)
    else
      var d := DataPath(directory, name);
      if OpenFailure(files, d, mode).Some? then OpenFailure(files, d, mode)
      else OpenFailure(FilesAfterOpen(files, d, mode), MetaPath(directory, name), mode)
  }

  /** The disk after the two opens of `Storage._open(name, mode)`; a failed meta
      open does not undo the data open before it. */
  function FilesAfterItemOpen(files: map<string, seq<byte>>, directory: string, name: string, mode: Mode): map<string, seq<byte>> {
    if '/' in name then files
    else
      var d := DataPath(directory, name);
      if OpenFailure(files, d, mode).Some? then files
      else FilesAfterOpen(FilesAfterOpen(files, d, mode), MetaPath(directory, name), mode)
  }

  /** `create`: an existing data file stops it with nothing created; an existing
      metadata file stops it after the empty data file was created; otherwise both
      files are created empty. */
  lemma CreateOutcome(files: map<string, seq<byte>>, directory: string, name: string)
    requires '/' !in name
    ensures var d, m := DataPath(directory, name), MetaPath(directory, name);
      && (d in files ==>
            ItemFailure(files, directory, name, CreateExclusive) == Some(AlreadyExists)
            && FilesAfterItemOpen(files, directory, name, CreateExclusive) == files)
      && (d !in files && m in files ==>
            ItemFailure(files, directory, name, CreateExclusive) == Some(AlreadyExists)
            && FilesAfterItemOpen(files, directory, name, CreateExclusive) == files[d := []])
      && (d !in files && m !in files ==>
            ItemFailure(files, directory, name, CreateExclusive).None?
            && FilesAfterItemOpen(files, directory, name, CreateExclusive) == files[d := []][m := []])
  {
    PathsDistinct(directory, name, name);
  }

  /** `open` and `openwrite` never create or change a file; they fail exactly when
      one of the two files is missing. */
  lemma OpenOutcome(files: map<string, seq<byte>>, directory: string, name: string, mode: Mode)
    requires '/' !in name && mode != CreateExclusive
    ensures FilesAfterItemOpen(files, directory, name, mode) == files
    ensures ItemFailure(files, directory, name, mode)
         == if DataPath(directory, name) in files && MetaPath(directory, name) in files then None else Some(NotFound)
  {
  }

  /** After a successful `create`, a second `create` of the same name fails with
      AlreadyExists and leaves the disk as the first one left it. */
  lemma {:induction false} CreateTwice(files: map<string, seq<byte>>, directory: string, name: string)
    requires ItemFailure(files, directory, name, CreateExclusive).None?
    ensures var after := FilesAfterItemOpen(files, directory, name, CreateExclusive);
      && ItemFailure(after, directory, name, CreateExclusive) == Some(AlreadyExists)
      && FilesAfterItemOpen(after, directory, name, CreateExclusive) == after
  {
    CreateOutcome(files, directory, name);
    var after := FilesAfterItemOpen(files, directory, name, CreateExclusive);
    CreateOutcome(after, directory, name);
  }

  /** Opening or creating one item neither creates, nor changes, nor removes the
      files of any other item. */
  lemma {:induction false} OtherItemsUndisturbed(files: map<string, seq<byte>>, directory: string, name: string, other: string, mode: Mode)
    requires name != other
    ensures var after := FilesAfterItemOpen(files, directory, name, mode);
      forall p :: (p == DataPath(directory, other) || p == MetaPath(directory, other)) ==>
        (p in after <==> p in files) && (p in files ==> after[p] == files[p])
  {
    PathsDistinct(directory, name, other);
    PathsDistinct(directory, other, name);
  }

  // ---------------------------------------------------------------- loading and flushing metadata

  /** What `Meta.__init__` makes of the whole metadata file: an empty file is an
      empty dict, anything else must decode. */
  function LoadEntries(contents: seq<byte>): (r: Result<Entries>)
    ensures |contents| == 0 ==> r == Ok([])
    ensures r.Ok? ==> Distinct(r.value)
    ensures r.Err? ==> r.error == CorruptMetadata
  {
    if |contents| == 0 then Ok([])
    else match Decode(contents)
      case None => Err(CorruptMetadata)
      case Some(p) => Ok(p.value)
  }

  /** Reopening after a flush yields exactly the flushed dict, whatever the file
      held before: flush does not truncate, and decoding stops at the end marker. */
  lemma FlushThenLoad(before: seq<byte>, es: Entries)
    requires Distinct(es)
    ensures LoadEntries(WriteAt(before, 0, Encode(es))) == Ok(es)
  {
    var enc := Encode(es);
    var tail := if |enc| < |before| then before[|enc|..] else [];
    WriteAtStart(before, enc);
    DecodeEncode(es, tail);
  }

  // ---------------------------------------------------------------- the handles

  /** Random-access bytes over the item's data file. */
  class Data {
    const file: File

    constructor (file: File)
      ensures this.file == file
    {
      this.file := file;
    }

    ghost predicate Valid()
      reads file.disk
    {
      file.Valid()
    }

    /** The data file's current size in bytes. */
    method Size() returns (r: Result<nat>)
      requires Valid()
      ensures file.closed ==> r == Err(ClosedFile)
      ensures !file.closed ==> r == Ok(|file.disk.files[file.path]|)
    {
      if file.closed {
        return Err(ClosedFile);
      }
      r := Ok(|file.disk.files[file.path]|);
    }

    /** Up to `length` bytes from `offset`; a short read at the end is no error. */
    method Read(offset: int, length: int) returns (r: Result<seq<byte>>)
      requires Valid()
      ensures file.closed ==> r == Err(ClosedFile)
      ensures !file.closed && offset < 0 ==> r == Err(InvalidOffset)
      ensures !file.closed && offset >= 0 ==> r == Ok(ReadAt(file.disk.files[file.path], offset, length))
    {
      if file.closed {
        return Err(ClosedFile);
      }
      if offset < 0 {
        return Err(InvalidOffset);
      }
      r := Ok(ReadAt(file.disk.files[file.path], offset, length));
    }

    /** Writes `data` at `offset` in place.  The file object's `write` returns
        nothing, so neither does a successful write. */
    method Write(data: seq<byte>, offset: int) returns (r: Result<()>)
      requires Valid()
      modifies file.disk
      ensures Valid()
      ensures file.closed ==> r == Err(ClosedFile) && file.disk.files == old(file.disk.files)
      ensures !file.closed && offset < 0 ==> r == Err(InvalidOffset) && file.disk.files == old(file.disk.files)
      ensures !file.closed && offset >= 0 && !file.writable ==>
        r == Err(NotWritable) && file.disk.files == old(file.disk.files)
      ensures !file.closed && offset >= 0 && file.writable ==>
        && r == Ok(())
        && file.disk.files == old(file.disk.files)[file.path := WriteAt(old(file.disk.files[file.path]), offset, data)]
    {
      if file.closed {
        return Err(ClosedFile);
      }
      if offset < 0 {
        return Err(InvalidOffset);
      }
      if !file.writable {
        return Err(NotWritable);
      }
      file.disk.files := file.disk.files[file.path := WriteAt(file.disk.files[file.path], offset, data)];
      r := Ok(());
    }

    method Close()
      modifies file
      ensures file.closed
    {
      file.closed := true;
    }
  }

  /** The item's metadata: a dict held in memory, loaded whole when the handle is
      made and written back whole only by Flush. */
  class Meta {
    const file: File
    var entries: Entries

    constructor (file: File, entries: Entries)
      ensures this.file == file && this.entries == entries
    {
      this.file := file;
      this.entries := entries;
    }

    ghost predicate Valid()
      reads this, file.disk
    {
      file.Valid() && Distinct(entries)
    }

    /** `Meta(file_meta)`: reads the whole metadata file and decodes it. */
    static method Load(file: File) returns (r: Result<Meta>)
      requires file.Valid()
      ensures file.closed ==> r == Err(ClosedFile)
      ensures !file.closed ==> (r.Ok? <==> LoadEntries(file.disk.files[file.path]).Ok?)
      ensures !file.closed && r.Err? ==> r.error == CorruptMetadata
      ensures r.Ok? ==> && fresh(r.value) && r.value.file == file && r.value.Valid()
                        && r.value.entries == LoadEntries(file.disk.files[file.path]).value
    {
      if file.closed {
        return Err(ClosedFile);
      }
      var loaded := LoadEntries(file.disk.files[file.path]);
      if loaded.Err? {
        return Err(loaded.error);
      }
      var m := new Meta(file, loaded.value);
      r := Ok(m);
    }

    /** The keys, each once, in insertion order. */
    method Iter() returns (keys: seq<string>)
      requires Valid()
      ensures forall k :: k in keys <==> k in ToMap(entries)
      ensures forall i, j :: 0 <= i < j < |keys| ==> keys[i] != keys[j]
      ensures keys == Keys(entries)
    {
      keys := Keys(entries);
      KeysAreMapKeys(entries);
      KeysDistinct(entries);
    }

    /** The number of keys. */
    method Len() returns (n: nat)
      requires Valid()
      ensures n == |ToMap(entries)|
    {
      n := |entries|;
      SizeIsLength(entries);
    }

    /** `meta[key]`; a missing key is an error. */
    method Get(key: string) returns (r: Result<Value>)
      ensures key in ToMap(entries) ==> r == Ok(ToMap(entries)[key])
      ensures key !in ToMap(entries) ==> r == Err(MissingKey)
    {
      var found := Lookup(entries, key);
      if found.None? {
        return Err(MissingKey);
      }
      r := Ok(found.value);
    }

    /** `meta[key] = value`: changes the dict in memory only, never the file. */
    method Set(key: string, value: Value)
      requires Valid()
      modifies this
      ensures Valid()
      ensures entries == Assign(old(entries), key, value)
      ensures ToMap(entries) == ToMap(old(entries))[key := value]
    {
      entries := Assign(entries, key, value);
    }

    /** `del meta[key]`: changes the dict in memory only; a missing key is an error
        and leaves the dict as it was. */
    method Delete(key: string) returns (r: Result<()>)
      requires Valid()
      modifies this
      ensures Valid()
      ensures key !in ToMap(old(entries)) ==> r == Err(MissingKey) && entries == old(entries)
      ensures key in ToMap(old(entries)) ==>
        && r == Ok(())
        && entries == Remove(old(entries), key)
        && ToMap(entries) == ToMap(old(entries)) - {key}
    {
      var found := Lookup(entries, key);
      if found.None? {
        return Err(MissingKey);
      }
      entries := Remove(entries, key);
      r := Ok(());
    }

    /** `_write`: the encoded dict overwrites the file from offset 0; nothing is
        truncated. */
    method Write() returns (r: Result<()>)
      requires Valid()
      modifies file.disk
      ensures Valid()
      ensures file.closed ==> r == Err(ClosedFile) && file.disk.files == old(file.disk.files)
      ensures !file.closed && !file.writable ==> r == Err(NotWritable) && file.disk.files == old(file.disk.files)
      ensures !file.closed && file.writable ==>
        && r == Ok(())
        && file.disk.files == old(file.disk.files)[file.path := WriteAt(old(file.disk.files[file.path]), 0, Encode(entries))]
    {
      if file.closed {
        return Err(ClosedFile);
      }
      if !file.writable {
        return Err(NotWritable);
      }
      file.disk.files := file.disk.files[file.path := WriteAt(file.disk.files[file.path], 0, Encode(entries))];
      r := Ok(());
    }

    /** Persists the dict; afterwards the file loads back as exactly this dict. */
    method Flush() returns (r: Result<()>)
      requires Valid()
      modifies file.disk
      ensures Valid()
      ensures file.closed ==> r == Err(ClosedFile) && file.disk.files == old(file.disk.files)
      ensures !file.closed && !file.writable ==> r == Err(NotWritable) && file.disk.files == old(file.disk.files)
      ensures !file.closed && file.writable ==>
        && r == Ok(())
        && file.disk.files == old(file.disk.files)[file.path := WriteAt(old(file.disk.files[file.path]), 0, Encode(entries))]
        && LoadEntries(file.disk.files[file.path]) == Ok(entries)
    {
      r := Write();
      if r.Ok? {
        FlushThenLoad(old(file.disk.files[file.path]), entries);
      }
    }

    /** Releases the file without flushing. */
    method Close()
      modifies file
      ensures file.closed
    {
      file.closed := true;
    }
  }

  /** An open item: its Data and Meta handles over two distinct files of one disk. */
  class Item {
    const data: Data
    const meta: Meta

    constructor (data: Data, meta: Meta)
      ensures this.data == data && this.meta == meta
    {
      this.data := data;
      this.meta := meta;
    }

    ghost predicate Valid()
      reads data.file.disk, meta, meta.file.disk
    {
      data.Valid() && meta.Valid() && data.file != meta.file && data.file.disk == meta.file.disk
    }

    /** The handles refer to `data` and `meta` on `disk`, both open, both in the
        given mode. */
    ghost predicate OpenOn(disk: Disk, dataPath: string, metaPath: string, writable: bool)
      reads data.file, meta.file
    {
      && data.file.disk == disk && data.file.path == dataPath
      && meta.file.disk == disk && meta.file.path == metaPath
      && data.file.writable == writable && meta.file.writable == writable
      && !data.file.closed && !meta.file.closed
    }

    /** `Item(file_data, file_meta)`: wraps the data file and loads the metadata. */
    static method Init(fileData: File, fileMeta: File) returns (r: Result<Item>)
      requires fileData.Valid() && fileMeta.Valid()
      requires fileData != fileMeta && fileData.disk == fileMeta.disk
      ensures fileMeta.closed ==> r == Err(ClosedFile)
      ensures !fileMeta.closed ==> (r.Ok? <==> LoadEntries(fileMeta.disk.files[fileMeta.path]).Ok?)
      ensures !fileMeta.closed && r.Err? ==> r.error == CorruptMetadata
      ensures r.Ok? ==>
        && fresh(r.value) && fresh(r.value.data) && fresh(r.value.meta)
        && r.value.data.file == fileData && r.value.meta.file == fileMeta
        && r.value.Valid()
        && r.value.meta.entries == LoadEntries(fileMeta.disk.files[fileMeta.path]).value
    {
      var data := new Data(fileData);
      var meta := Meta.Load(fileMeta);
      if meta.Err? {
        return Err(meta.error);
      }
      var item := new Item(data, meta.value);
      r := Ok(item);
    }

    /** Leaving the `with` block: closes the data file, then the metadata file,
        without flushing. */
    method Exit()
      modifies data.file, meta.file
      ensures data.file.closed && meta.file.closed
    {
      data.Close();
      meta.Close();
    }
  }

  /** The store: a directory on a disk. */
  class Storage {
    const directory: string
    const disk: Disk

    constructor (directory: string, disk: Disk)
      ensures this.directory == directory && this.disk == disk
    {
      this.directory := directory;
      this.disk := disk;
    }

    /** `_filename`: a name holding '/' could leave the directory and is refused;
        any other name becomes a path directly inside the directory. */
    function Filename(name: string): (r: Result<string>)
      ensures r.Err? <==> '/' in name
      ensures r.Err? ==> r.error == InvalidName
      ensures r.Ok? ==> && |r.value| == |directory| + 1 + |name|
                        && r.value[..|directory| + 1] == directory + "/"
                        && r.value[|directory| + 1..] == name
                        && '/' !in r.value[|directory| + 1..]
    {
      if '/' in name then Err(InvalidName)
      else
        var path := directory + "/" + name;
        assert path[|directory| + 1..] == name;
        Ok(path)
    }

    /** `_open(name, mode)`: checks the name, opens the data file, then the
        metadata file, then builds the Item. */
    method OpenItem(name: string, mode: Mode) returns (r: Result<Item>)
      modifies disk
      ensures disk.files == FilesAfterItemOpen(old(disk.files), directory, name, mode)
      ensures '/' in name ==> r == Err(InvalidName) && disk.files == old(disk.files)
      ensures ItemFailure(old(disk.files), directory, name, mode).Some? ==>
        r == Err(ItemFailure(old(disk.files), directory, name, mode).value)
      ensures ItemFailure(old(disk.files), directory, name, mode).None? ==>
        && DataPath(directory, name) in disk.files && MetaPath(directory, name) in disk.files
        && (r.Ok? <==> LoadEntries(disk.files[MetaPath(directory, name)]).Ok?)
        && (r.Err? ==> r.error == CorruptMetadata)
      ensures r.Ok? ==> Opened(r.value, name, mode)
      ensures r.Ok? ==> FreshItem(r.value)
    {
      var base := Filename(name);
      if base.Err? {
        return Err(base.error);
      }
      var dataFile := disk.Open(base.value + ".data", mode);
      if dataFile.Err? {
        return Err(dataFile.error);
      }
      var metaFile := disk.Open(base.value + ".meta", mode);
      if metaFile.Err? {
        return Err(metaFile.error);
      }
      PathsDistinct(directory, name, name);
      r := Item.Init(dataFile.value, metaFile.value);
    }

    /** What a successful open hands back: handles over the item's two
        files, in the mode asked for, with the dict the metadata file holds. */
    ghost predicate Opened(item: Item, name: string, mode: Mode)
      reads disk, item.data.file, item.data.file.disk, item.meta, item.meta.file, item.meta.file.disk
    {
      && item.Valid()
      && item.OpenOn(disk, DataPath(directory, name), MetaPath(directory, name), mode.Writable())
      && LoadEntries(disk.files[item.meta.file.path]) == Ok(item.meta.entries)
    }

    /** The item and its handles were allocated by the call. */
    twostate predicate FreshItem(new item: Item) {
      fresh(item) && fresh(item.data) && fresh(item.meta) && fresh(item.data.file) && fresh(item.meta.file)
    }

    /** `create`: exclusive creation of both files; an item created here starts
        with no bytes and an empty dict. */
    method Create(name: string) returns (r: Result<Item>)
      modifies disk
      ensures disk.files == FilesAfterItemOpen(old(disk.files), directory, name, CreateExclusive)
      ensures ItemFailure(old(disk.files), directory, name, CreateExclusive).Some? ==>
        r == Err(ItemFailure(old(disk.files), directory, name, CreateExclusive).value)
      ensures ItemFailure(old(disk.files), directory, name, CreateExclusive).None? ==> r.Ok?
      ensures r.Ok? ==> FreshItem(r.value)
      ensures r.Ok? ==> && Opened(r.value, name, CreateExclusive)
                        && disk.files[DataPath(directory, name)] == []
                        && disk.files[MetaPath(directory, name)] == []
                        && r.value.meta.entries == []
    {
      if '/' !in name {
        CreateOutcome(disk.files, directory, name);
      }
      r := OpenItem(name, CreateExclusive);
    }

    /** `open`: both files must exist; the handles are read-only. */
    method Open(name: string) returns (r: Result<Item>)
      modifies disk
      ensures disk.files == old(disk.files)
      ensures ItemFailure(old(disk.files), directory, name, ReadOnly).Some? ==>
        r == Err(ItemFailure(old(disk.files), directory, name, ReadOnly).value)
      ensures ItemFailure(old(disk.files), directory, name, ReadOnly).None? ==>
        && (r.Ok? <==> LoadEntries(disk.files[MetaPath(directory, name)]).Ok?)
        && (r.Err? ==> r.error == CorruptMetadata)
      ensures r.Err? ==> r.error != AlreadyExists
      ensures r.Ok? ==> Opened(r.value, name, ReadOnly)
      ensures r.Ok? ==> FreshItem(r.value)
    {
      if '/' !in name {
        OpenOutcome(disk.files, directory, name, ReadOnly);
      }
      r := OpenItem(name, ReadOnly);
    }

    /** `openwrite`: as `open`, with read-write handles. */
    method OpenWrite(name: string) returns (r: Result<Item>)
      modifies disk
      ensures disk.files == old(disk.files)
      ensures ItemFailure(old(disk.files), directory, name, ReadWrite).Some? ==>
        r == Err(ItemFailure(old(disk.files), directory, name, ReadWrite).value)
      ensures ItemFailure(old(disk.files), directory, name, ReadWrite).None? ==>
        && (r.Ok? <==> LoadEntries(disk.files[MetaPath(directory, name)]).Ok?)
        && (r.Err? ==> r.error == CorruptMetadata)
      ensures r.Err? ==> r.error != AlreadyExists
      ensures r.Ok? ==> Opened(r.value, name, ReadWrite)
      ensures r.Ok? ==> FreshItem(r.value)
    {
      if '/' !in name {
        OpenOutcome(disk.files, directory, name, ReadWrite);
      }
      r := OpenItem(name, ReadWrite);
    }

    /** `destroy` is not implemented and always fails. */
    method Destroy(name: string) returns (r: Result<()>)
      ensures r == Err(NotImplemented)
    {
      r := Err(NotImplemented);
    }
  }
}
