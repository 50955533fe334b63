/** Callers of the store, proved from the contracts alone: the end-to-end uses of
    an item that the store promises, each stated as the postcondition of a client. */
module Scenarios {
  import opened Bytes
  import opened Results
  import opened Dicts
  import opened Os
  import opened Filesystem

  const HELLO: seq<byte> := [0x68, 0x65, 0x6C, 0x6C, 0x6F]
  const BANGS: seq<byte> := [0x21, 0x21]
  const TEXT_PLAIN: Value := Text("text/plain")

  /** Both files of `name` are absent from the store's directory. */
  ghost predicate Absent(store: Storage, name: string)
    reads store.disk
  {
    DataPath(store.directory, name) !in store.disk.files && MetaPath(store.directory, name) !in store.disk.files
  }

  /** Create, write bytes, set a key, flush, close; then open the item again:
      the bytes and the key read back. */
  method WriteFlushReopen(store: Storage) returns (bytes: Result<seq<byte>>, ct: Result<Value>)
    requires Absent(store, "abc")
    modifies store.disk
    ensures bytes == Ok(HELLO)
    ensures ct == Ok(TEXT_PLAIN)
  {
    CreateOutcome(store.disk.files, store.directory, "abc");
    var created := store.Create("abc");
    var item := created.value;
    var written := item.data.Write(HELLO, 0);
    WriteAtStart([], HELLO);
    item.meta.Set("ct", TEXT_PLAIN);
    var flushed := item.meta.Flush();
    item.Exit();
    ghost var files := store.disk.files;
    assert files[DataPath(store.directory, "abc")] == HELLO;
    assert LoadEntries(files[MetaPath(store.directory, "abc")]) == Ok([("ct", TEXT_PLAIN)]);
    OpenOutcome(files, store.directory, "abc", ReadOnly);
    var handle := store.Open("abc");
    var again := handle.value;
    bytes := again.data.Read(0, 5);
    ct := again.meta.Get("ct");
  }

  /** A key set but never flushed is gone once the item is opened again. */
  method CloseWithoutFlush(store: Storage) returns (k: Result<Value>)
    requires Absent(store, "y")
    modifies store.disk
    ensures k == Err(MissingKey)
  {
    CreateOutcome(store.disk.files, store.directory, "y");
    var created := store.Create("y");
    var item := created.value;
    item.meta.Set("k", Text("v"));
    item.Exit();
    OpenOutcome(store.disk.files, store.directory, "y", ReadOnly);
    var handle := store.Open("y");
    k := handle.value.meta.Get("k");
  }

  /** Writing past the end grows the data and zero-fills the gap. */
  method DataGrowth(store: Storage) returns (sizes: seq<Result<nat>>, gap: Result<seq<byte>>, end: Result<seq<byte>>)
    requires Absent(store, "z")
    modifies store.disk
    ensures sizes == [Ok(0), Ok(5), Ok(12)]
    ensures gap == Ok([0, 0, 0, 0, 0])
    ensures end == Ok(BANGS)
  {
    CreateOutcome(store.disk.files, store.directory, "z");
    var created := store.Create("z");
    var data := created.value.data;
    var s0 := data.Size();
    var w0 := data.Write(HELLO, 0);
    var s1 := data.Size();
    var w1 := data.Write(BANGS, 10);
    Grown();
    var s2 := data.Size();
    sizes := [s0, s1, s2];
    gap := data.Read(5, 5);
    end := data.Read(10, 2);
  }

  /** The data file of DataGrowth after its two writes. */
  lemma Grown()
    ensures WriteAt(WriteAt([], 0, HELLO), 10, BANGS) == HELLO + [0, 0, 0, 0, 0] + BANGS
  {
    WriteAtStart([], HELLO);
    var r := WriteAt(HELLO, 10, BANGS);
    var expected := HELLO + [0, 0, 0, 0, 0] + BANGS;
    assert |r| == |expected| == 12;
    forall i | 0 <= i < 12 ensures r[i] == expected[i] { }
  }

  /** Creating a name twice: the second attempt fails and the files the first
      one made are left as they are. */
  method CreateTwice(store: Storage, name: string) returns (second: Result<Item>)
    requires '/' !in name && Absent(store, name)
    modifies store.disk
    ensures second == Err(AlreadyExists)
    ensures store.disk.files == old(store.disk.files)[DataPath(store.directory, name) := []][MetaPath(store.directory, name) := []]
  {
    CreateOutcome(store.disk.files, store.directory, name);
    var first := store.Create(name);
    CreateOutcome(store.disk.files, store.directory, name);
    second := store.Create(name);
  }

  /** Handles from `open` are read-only: neither bytes nor metadata can be
      written through them, and the disk stays as it was. */
  method ReadOnlyHandles(store: Storage, name: string) returns (write: Result<()>, flush: Result<()>)
    requires '/' !in name
    requires DataPath(store.directory, name) in store.disk.files
    requires MetaPath(store.directory, name) in store.disk.files
    requires LoadEntries(store.disk.files[MetaPath(store.directory, name)]).Ok?
    modifies store.disk
    ensures write == Err(NotWritable) && flush == Err(NotWritable)
    ensures store.disk.files == old(store.disk.files)
  {
    OpenOutcome(store.disk.files, store.directory, name, ReadOnly);
    var handle := store.Open(name);
    var item := handle.value;
    write := item.data.Write(HELLO, 0);
    flush := item.meta.Flush();
  }
}
