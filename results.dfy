/** Failure values of the item store.  Each constructor stands for the Python
    exception the storage code raises (or lets through) on that path. */
module Results {

  datatype Error =
    | InvalidName        // RuntimeError from Storage._filename: the name holds a '/'
    | AlreadyExists      // IOError [Errno 17] (EEXIST) from an exclusive 'w+bx' open
    | NotFound           // IOError [Errno 2] (ENOENT) from a 'rb' or 'r+b' open
    | CorruptMetadata    // whatever pickle.loads raises on bytes it cannot read
    | ClosedFile         // ValueError: I/O operation on closed file
    | InvalidOffset      // IOError [Errno 22] (EINVAL) from a seek to a negative offset
    | NotWritable        // IOError: File not open for writing (a file opened 'rb')
    | MissingKey         // KeyError from the metadata mapping
    | NotImplemented     // NotImplementedError from Storage.destroy

  datatype Option<+T> = None | Some(value: T)

  datatype Result<+T> = Ok(value: T) | Err(error: Error)
}
