/**
 * The part of the Java platform the duplicate remover relies on, made abstract:
 * signed bytes, checked I/O exceptions as a Result, a file stream that hands out
 * the bytes of a file in chunks of sizes it chooses, and a file system that can
 * open and delete regular files.
 */
module JavaIo {

  /** A Java `byte`: a signed 8-bit integer. */
  newtype JByte = x: int | -128 <= x < 128

  /** A file path as the walk renders it (`Path.toString()`). */
  type Path = string

  /** The kinds of `IOException` the model distinguishes. */
  datatype IoError =
    | NoSuchFile    // the file cannot be opened: it is missing
    | ReadFailure   // a read failed in the middle of the stream
    | AccessDenied  // the file exists but may not be opened or deleted

  datatype Option<+T> = None | Some(value: T)

  /** A value, or the `IOException` the Java call would have thrown instead. */
  datatype Result<+T> = Ok(value: T) | Err(error: IoError)

  /**
   * A regular file: its bytes, whether it may be opened for reading at all
   * (read permission), and, for a damaged file, the offset of a byte that
   * cannot be read.
   */
  datatype FileData = FileData(content: seq<JByte>, openable: bool, badOffset: Option<nat>)
  {
    /** The file can be opened and every byte of it can be read. */
    predicate Readable() {
      openable && (badOffset.None? || |content| <= badOffset.value)
    }
  }

  /** An open `InputStream` over one file. */
  class InputStream {
    const content: seq<JByte>
    const badOffset: Option<nat>
    var pos: nat  // number of bytes already handed out

    ghost predicate Valid()
      reads this
    {
      pos <= |content|
    }

    /** The unreadable byte lies in `[from, to)`. */
    predicate BadWithin(from: nat, to: nat) {
      badOffset.Some? && from <= badOffset.value < to
    }

    constructor (file: FileData)
      ensures Valid()
      ensures content == file.content && badOffset == file.badOffset && pos == 0
    {
      content := file.content;
      badOffset := file.badOffset;
      pos := 0;
    }

    /**
     * `read(byte[] b)`: copies the next chunk of the file into `buffer` and
     * returns its length, which is positive and at most `buffer.Length` but
     * otherwise the stream's own choice; returns -1 at the end of the file,
     * and fails when the chunk would contain the unreadable byte.
     */
    method Read(buffer: array<JByte>) returns (r: Result<int>)
      requires Valid() && buffer.Length > 0
      modifies this`pos, buffer
      ensures Valid()
      ensures r == Ok(-1) <==> old(pos) == |content|
      ensures r == Ok(-1) || r.Err? ==> pos == old(pos)
      ensures r.Err? ==> r.error == ReadFailure && BadWithin(old(pos), |content|)
      ensures r.Ok? && r.value != -1 ==>
        && 0 < r.value <= buffer.Length
        && pos == old(pos) + r.value
        && buffer[..r.value] == content[old(pos)..pos]
        && !BadWithin(old(pos), pos)
    {
      if pos == |content| {
        return Ok(-1);
      }
      assert 0 < 1 <= buffer.Length && pos + 1 <= |content|;
      var n: int :| 0 < n <= buffer.Length && pos + n <= |content|;
      if BadWithin(pos, pos + n) {
        return Err(ReadFailure);
      }
      forall i | 0 <= i < n {
        buffer[i] := content[pos + i];
      }
      pos := pos + n;
      r := Ok(n);
    }
  }

  /**
   * The regular files that exist, with their contents, and the paths whose
   * deletion is refused (for instance for lack of permission).
   */
  class FileSystem {
    var files: map<Path, FileData>
    const locked: set<Path>

    constructor (files: map<Path, FileData>, locked: set<Path>)
      ensures this.files == files && this.locked == locked
    {
      this.files := files;
      this.locked := locked;
    }

    /**
     * `Files.newInputStream(file)`: a fresh stream positioned at the start of
     * the file; fails when there is no such file or it may not be opened.
     */
    method Open(file: Path) returns (r: Result<InputStream>)
      ensures r.Err? <==> file !in files || !files[file].openable
      ensures r.Err? ==> r.error == (if file !in files then NoSuchFile else AccessDenied)
      ensures r.Ok? ==>
        && fresh(r.value) && r.value.Valid() && r.value.pos == 0
        && r.value.content == files[file].content
        && r.value.badOffset == files[file].badOffset
    {
      if file !in files {
        return Err(NoSuchFile);
      }
      if !files[file].openable {
        return Err(AccessDenied);
      }
      var stream := new InputStream(files[file]);
      r := Ok(stream);
    }

    /**
     * `Files.deleteIfExists(file)`: removes the file and answers true; answers
     * false, changing nothing, when there is no such file; fails, changing
     * nothing, when the file may not be deleted.
     */
    method DeleteIfExists(file: Path) returns (r: Result<bool>)
      modifies this`files
      ensures file !in old(files) ==> r == Ok(false) && files == old(files)
      ensures file in old(files) && file in locked ==> r == Err(AccessDenied) && files == old(files)
      ensures file in old(files) && file !in locked ==> r == Ok(true) && files == old(files) - {file}
    {
      if file !in files {
        return Ok(false);
      }
      if file in locked {
        return Err(AccessDenied);
      }
      files := files - {file};
      r := Ok(true);
    }
  }
}
