/** The file system as the archiver touches it: whole files by path. */
module Files {
  import opened Bytes

  /** The contents of a file, empty when it does not exist (as an `app` stream creates it). */
  function Contents(files: map<string, Bytes>, path: string): Bytes {
    if path in files then files[path] else []
  }

  class FileSystem {
    var files: map<string, Bytes>

    constructor (initial: map<string, Bytes>)
      ensures files == initial
    {
      files := initial;
    }

    /** `ofstream(path, out | trunc)`, closed at once: the file exists and is empty. */
    method Truncate(path: string)
      modifies this
      ensures files == old(files)[path := []]
    {
      files := files[path := []];
    }

    /** Writing to an `ofstream` opened with `app`: the bytes go to the end. */
    method Append(path: string, bytes: Bytes)
      modifies this
      ensures files == old(files)[path := Contents(old(files), path) + bytes]
    {
      files := files[path := Contents(files, path) + bytes];
    }

    /** `remove(path)`. */
    method Remove(path: string)
      modifies this
      ensures files == old(files) - {path}
    {
      files := files - {path};
    }
  }
}
