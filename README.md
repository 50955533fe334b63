# bepasty filesystem storage, modelled in Dafny

bepasty keeps every pasted item as two files in one directory. For an item
named `N`, `N.data` holds the raw bytes and `N.meta` holds a pickled dict of
attributes. `Storage` turns a name into these two paths. It refuses a name that
contains `/`, and it opens both files with `create` (exclusive, read-write),
`open` (read-only) or `openwrite` (read-write). The opened files come back
wrapped in an `Item`:

- `Data` gives random access to the bytes: `size`, `read(offset, length)` and `write(data, offset)`.
- `Meta` is a dict. It is read whole when the item is opened and written back
  whole, from offset 0, by `flush`. Closing it does not flush.
- Leaving the item's `with` block closes both files.

The model is a small state machine over a disk. The disk is a `map` from path
strings to byte sequences (`Os.Disk.files`). A file object is an `Os.File`: the
disk it belongs to, its path, whether its mode allows writing, and whether it
has been closed. `Data`, `Meta`, `Item` and `Storage` are classes with the
source's fields. `Storage` has one field the source does not: `disk`, which
stands for the operating system that `open` talks to. Each method states the
whole new state of the disk or of the dict, and what it returns. The byte-level effect of a read and a write is given
by the functions `Bytes.ReadAt` and `Bytes.WriteAt`, which are characterised
index by index.

Pickle is replaced by a concrete, self-delimiting encoding of the dict
(`Codec`). The round trip `Decode(Encode(d) + tail) == d` is proved for every
dict and for every tail. This is the property the store relies on. A flush
never truncates the file, so stale bytes from a longer earlier flush can
follow the new encoding, and the decoder must stop at the end marker.
`Filesystem.FlushThenLoad` puts the two facts together: reopening after a flush
gives back exactly the flushed dict.

The dict is modelled as its entries with distinct keys (`Dicts.Entries`). A
Python 2 dict iterates in an order it does not promise. The model fixes one
such order, the order in which keys were first inserted, and iteration and
serialisation both follow it. `Dicts.ToMap` gives the mapping the entries
stand for, and that mapping is what the contracts talk about.

The file objects are those of Python 2, the interpreter the code is written
for: Python 3's `open` rejects the mode `'w+bx'` that `create` passes (line
22), while Python 2's `open` hands the mode to C's `fopen`, so `'w+bx'` is an
exclusive create that fails when the file exists. Its `read` with a negative length reads to the end of the file,
and its `write` returns `None`. The error values in `Results` are named after
Python 2's exceptions.

Files: `results.dfy` (errors, `Option`, `Result`), `bytes.dfy` (buffers, read
and write at an offset), `seqs.dfy` (two facts about concatenation the proofs
use), `dicts.dfy` (the dict), `codec.dfy` (the pickle stand-in), `os.dfy`
(disk, `open`, file objects), `filesystem.dfy` (the store itself),
`scenarios.dfy` (callers of the store, proved from the contracts).

The code has some behaviour a reader might not expect, and the model keeps it:

- A flush does not truncate the metadata file, so stale bytes from a longer
  earlier encoding can follow the new one.
- `create` is not all-or-nothing. If `N.data` is absent but `N.meta` exists, the
  empty `N.data` stays behind after the failure.
- `destroy` always raises `NotImplementedError`.
- `del meta[k]` for an absent key raises `KeyError`. It is not a no-op.
- `__exit__` closes the data file, then the metadata file, in that order. (If
  the first close raised, the second would not be attempted; close errors are
  listed under "Left out".)

The file object adds some edge cases, and the model keeps them:

- `read` with a negative length reads to the end of the file.
- A negative offset fails in the seek.
- A write of zero bytes never extends the file. This holds even past the end,
  so no gap is zero-filled.

## Model

| member | source | states |
|---|---|---|
| `Filesystem.Storage.constructor` | bepasty/storage/filesystem/__init__.py:7-8 | a store is a directory on a disk |
| `Filesystem.Storage.Filename` | bepasty/storage/filesystem/__init__.py:10-13 | a name containing '/' fails with InvalidName. Any other name gives exactly the directory, then '/', then the name, with no '/' after the directory's |
| `Filesystem.Storage.OpenItem` | bepasty/storage/filesystem/__init__.py:15-19 | the disk afterwards is `FilesAfterItemOpen` of the disk before. A bad name fails before any file is touched. Otherwise the first failing open (data, then meta) is the error. Once both files are open, the result fails exactly when the metadata does not decode. A success gives fresh, open handles over `N.data` and `N.meta` in the requested mode, with the decoded dict |
| `Filesystem.Storage.Create` | bepasty/storage/filesystem/__init__.py:21-22 | exclusive create of both files. Success exactly when neither file existed. Then both files exist, are empty and are open read-write, and the dict is empty |
| `Filesystem.Storage.Open` | bepasty/storage/filesystem/__init__.py:24-25 | never changes the disk. Fails as ItemFailure says when the name is bad or a file is missing (never with AlreadyExists). With both files present it succeeds exactly when the metadata decodes, and fails with CorruptMetadata otherwise. A success gives read-only handles with the loaded dict |
| `Filesystem.Storage.OpenWrite` | bepasty/storage/filesystem/__init__.py:27-28 | as Open, with read-write handles |
| `Filesystem.Storage.Destroy` | bepasty/storage/filesystem/__init__.py:30-31 | always fails with NotImplemented |
| `Filesystem.PathsDistinct` | bepasty/storage/filesystem/__init__.py:13-18 | no `.data` path is a `.meta` path, and different names give different paths |
| `Filesystem.CreateOutcome` | bepasty/storage/filesystem/__init__.py:17-22 | for a valid name: an existing `.data` means AlreadyExists and no change. A missing `.data` with an existing `.meta` means AlreadyExists, with the empty `.data` left behind. Otherwise both files are created empty |
| `Filesystem.OpenOutcome` | bepasty/storage/filesystem/__init__.py:17-18 | in modes 'rb' and 'r+b' the disk is unchanged, and the open fails with NotFound exactly when one of the two files is missing |
| `Filesystem.CreateTwice` | bepasty/storage/filesystem/__init__.py:21-22 | after a successful create, a second create of the same name fails with AlreadyExists and leaves the disk unchanged |
| `Filesystem.OtherItemsUndisturbed` | bepasty/storage/filesystem/__init__.py:15-19 | opening or creating one name never creates, changes or removes a file of another name |
| `Os.OpenFailure` | bepasty/storage/filesystem/__init__.py:17-18 | `open` in mode 'x' fails exactly when the file exists (AlreadyExists). In the other modes it fails exactly when the file is missing (NotFound) |
| `Os.FilesAfterOpen` | bepasty/storage/filesystem/__init__.py:17-18 | an open never changes or removes an existing file. Only a successful exclusive create adds a file, and that file is empty |
| `Os.Disk.Open` | bepasty/storage/filesystem/__init__.py:17-18 | the disk afterwards matches FilesAfterOpen. The call fails exactly as OpenFailure says. A success gives a fresh, open file object on that path whose writability follows the mode |
| `Filesystem.Item.Init` | bepasty/storage/filesystem/__init__.py:41-47 | wraps the data file and loads the metadata. Fails with ClosedFile when the metadata handle is closed. Otherwise it fails with CorruptMetadata exactly when the metadata does not decode. Otherwise the item is valid and holds the decoded dict |
| `Filesystem.Item.Exit` | bepasty/storage/filesystem/__init__.py:52-54 | both files are closed. The disk and the dict are not touched, so unflushed changes are not written |
| `Filesystem.Data.constructor` | bepasty/storage/filesystem/__init__.py:62-63 | a Data wraps its file |
| `Filesystem.Data.Size` | bepasty/storage/filesystem/__init__.py:65-68 | the current length of the data file. Changes nothing. Fails on a closed file |
| `Filesystem.Data.Read` | bepasty/storage/filesystem/__init__.py:73-75 | the bytes `ReadAt(buf, offset, length)`, clipped at the end. Changes nothing. Fails on a closed file or a negative offset |
| `Filesystem.Data.Write` | bepasty/storage/filesystem/__init__.py:77-79 | returns nothing on success, as the file object's `write` does. The data file becomes `WriteAt(old, offset, data)` and no other file changes. Fails without change on a closed file, a negative offset or a read-only handle |
| `Filesystem.Data.Close` | bepasty/storage/filesystem/__init__.py:70-71 | the file is closed |
| `Filesystem.Meta.Load` | bepasty/storage/filesystem/__init__.py:86-93 | reads the whole metadata file. A closed handle gives ClosedFile. Otherwise it succeeds exactly when LoadEntries succeeds, and then the dict is LoadEntries' dict; on failure the error is CorruptMetadata |
| `Filesystem.LoadEntries` | bepasty/storage/filesystem/__init__.py:89-93 | an empty file is an empty dict. Anything else must decode, or it is CorruptMetadata. The dict has distinct keys |
| `Filesystem.Meta.Iter` | bepasty/storage/filesystem/__init__.py:95-96 | the keys in the model's fixed order (first insertion). Each key of the mapping appears exactly once |
| `Filesystem.Meta.Len` | bepasty/storage/filesystem/__init__.py:98-99 | the number of keys in the mapping |
| `Filesystem.Meta.Get` | bepasty/storage/filesystem/__init__.py:101-102 | the value stored under the key. MissingKey when the key is absent |
| `Filesystem.Meta.Set` | bepasty/storage/filesystem/__init__.py:104-105 | the mapping becomes old[key := value]. It changes in memory only, never the file |
| `Filesystem.Meta.Delete` | bepasty/storage/filesystem/__init__.py:107-108 | a present key is removed from the mapping. An absent key gives MissingKey and leaves the dict unchanged. Never touches the file |
| `Filesystem.Meta.Write` | bepasty/storage/filesystem/__init__.py:117-120 | the metadata file becomes `WriteAt(old, 0, Encode(dict))`, with no truncation. Fails without change on a closed or read-only file |
| `Filesystem.Meta.Flush` | bepasty/storage/filesystem/__init__.py:113-115 | as Write. In addition, afterwards the file loads back as exactly the current dict |
| `Filesystem.Meta.Close` | bepasty/storage/filesystem/__init__.py:110-111 | the file is closed. The file's contents stay as last flushed or loaded |
| `Filesystem.FlushThenLoad` | bepasty/storage/filesystem/__init__.py:113-120 | overwriting any earlier contents from offset 0 with the encoded dict and then loading gives back exactly that dict |
| `Bytes.ReadAt` | bepasty/storage/filesystem/__init__.py:73-75 | the result is the file's bytes from `offset` on, at most `length` of them. It is empty at or past the end, and a negative length reads to the end |
| `Bytes.WriteAt` | bepasty/storage/filesystem/__init__.py:77-79 | new length `max(old, offset + len)`. Bytes in the written range are `data`. Bytes outside it are unchanged, except that the gap past the old end is zero. Writing nothing changes nothing |
| `Bytes.Zeros` | bepasty/storage/filesystem/__init__.py:77-79 | the gap fill: n bytes, all zero |
| `Bytes.ReadBackWrite` | bepasty/storage/filesystem/__init__.py:73-79 | reading the range just written returns exactly the written bytes |
| `Bytes.ReadElsewhere` | bepasty/storage/filesystem/__init__.py:73-79 | a read of a range the write does not touch sees the old bytes |
| `Bytes.WriteAtStart` | bepasty/storage/filesystem/__init__.py:117-120 | a write from offset 0 leaves the data followed by the old bytes beyond its length |
| `Dicts.Lookup` | bepasty/storage/filesystem/__init__.py:101-102 | finds a value exactly for keys of the mapping, and the value is the mapped one |
| `Dicts.Assign` | bepasty/storage/filesystem/__init__.py:104-105 | keeps keys distinct. The mapping becomes m[k := v]. A present key keeps its place in the key order. A new key goes last, and then the entries are exactly the old ones followed by `(k, v)` |
| `Dicts.Remove` | bepasty/storage/filesystem/__init__.py:107-108 | keeps keys distinct. The mapping becomes m - {k}. Exactly one entry fewer when k was present |
| `Dicts.Keys` | bepasty/storage/filesystem/__init__.py:95-96 | one key per entry, in entry order |
| `Dicts.KeysAreMapKeys` | bepasty/storage/filesystem/__init__.py:95-96 | iteration yields exactly the keys of the mapping |
| `Dicts.KeysDistinct` | bepasty/storage/filesystem/__init__.py:95-96 | iteration yields no key twice |
| `Dicts.SizeIsLength` | bepasty/storage/filesystem/__init__.py:98-99 | the number of keys equals the number of entries |
| `Codec.Encode` | bepasty/storage/filesystem/__init__.py:119 | the serialised dict, never empty, so a flushed file never reads back as "no metadata" |
| `Codec.Decode` | bepasty/storage/filesystem/__init__.py:91 | a decoded dict always has distinct keys |
| `Codec.DecodeItems` | bepasty/storage/filesystem/__init__.py:91 | replaying entries onto a dict with distinct keys keeps them distinct |
| `Codec.DecodeEncode` | bepasty/storage/filesystem/__init__.py:91-119 | `Decode(Encode(d) + tail)` gives back `d` and leaves `tail`, for every dict and every tail |
| `Codec.DecodeEncodeItems` | bepasty/storage/filesystem/__init__.py:91-119 | decoding the encoded entries onto a dict with no shared keys appends them in order |
| `Codec.DecodeEncodeValue` | bepasty/storage/filesystem/__init__.py:91-119 | every value kind decodes back to itself, whatever follows it |
| `Codec.DecodeEncodeText` | bepasty/storage/filesystem/__init__.py:91-119 | a string decodes back to itself, whatever follows it |
| `Codec.DecodeEncodeNat` | bepasty/storage/filesystem/__init__.py:91-119 | a number in base 128 decodes back to itself, whatever follows it |
| `Codec.DecodeNat` | bepasty/storage/filesystem/__init__.py:91 | a successful decode consumes at least one byte, and what is left is a suffix of the input |
| `Scenarios.WriteFlushReopen` | bepasty/storage/filesystem/__init__.py:21-120 | create, write "hello", set "ct", flush, close, reopen: the bytes and the key read back |
| `Scenarios.CloseWithoutFlush` | bepasty/storage/filesystem/__init__.py:104-111 | a key set and closed without a flush is absent after reopening |
| `Scenarios.DataGrowth` | bepasty/storage/filesystem/__init__.py:65-79 | sizes 0, 5, 12 around two writes. The gap reads as five zero bytes and the second write reads back |
| `Scenarios.CreateTwice` | bepasty/storage/filesystem/__init__.py:21-22 | a second create fails with AlreadyExists, and the disk holds the two empty files of the first |
| `Scenarios.ReadOnlyHandles` | bepasty/storage/filesystem/__init__.py:24-25 | for an existing item with decodable metadata, the handles from `open` make a data write and a flush both fail with NotWritable, and the disk stays as it was |

## Left out

- The pickle format is replaced by the encoding in `Codec`. Metadata values are drawn from a closed set (none, booleans, integers, strings, byte strings). Arbitrary Python objects, floats and nested containers are not modelled. A pickle decoder could return a non-dict object, but `Codec.Decode` only yields a dict or fails.
- File object internals are not modelled: the seek position (every `Data` operation and `Meta._write` seek before use; `Meta.__init__` reads at line 89 without a seek and relies on the handle being freshly opened at position 0, which the model takes as given by reading the whole file), buffering, and `self._file.flush()` (line 115) as a durability step. A write lands on the disk map at once.
- `os.path.join` is modelled as `directory + "/" + name`. Its handling of a directory that ends in `/`, or of an empty directory, is not modelled.
- Errors raised by `close` itself, and the way `__exit__` skips the metadata close when the data close raises, are not modelled. In the model, closing cannot fail.
- File objects left open by a failed `create` or `open` (the `.data` handle when the `.meta` open or the metadata decode fails) are not tracked. The disk map has no notion of open handles.
- `Item.__enter__` (lines 49-50) returns the item itself. A Dafny caller simply holds the item, so it has no counterpart.
- `destroy` is modelled as a method that always fails, because that is all the code does.
- Concurrent opens of one name, permission errors and a full disk are not modelled.
- `close` and `__exit__` are not tied to a scope. The scenarios call `Item.Exit` explicitly where a `with` block ends.
- Meta.Iter: returns the list of keys rather than a live iterator over the dict, and in first-insertion order where a Python 2 dict promises no order.
- Metadata keys are strings (`Dicts.Entry`). The dict behind `Meta` (line 82) accepts any hashable key; other key types are not modelled.
- Offsets and lengths are unbounded integers. Python 2's `seek` and `read` raise `OverflowError` for values past a C `long`/`off_t` (lines 74-75, 78), and a write far past the end can fail for lack of space. The model instead reads `[]` or grows the buffer.
- The disk map has no directories and takes any path string. `open` at line 17 fails for a directory that does not exist, or for a name holding a NUL character. In the model both open successfully.
