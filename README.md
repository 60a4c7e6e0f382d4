# Duplicate file remover

A Dafny model of `DuplicateFileRemover.java`, a program that removes duplicate
files from a directory tree. The program has two methods, and both are modelled:

- `findAndDeleteDuplicateFiles` walks the tree, keys every regular file by the
  MD5 checksum of its content in a `HashMap<String, List<String>>`, and then, for
  every list of more than one path, deletes all the paths but the first.
- `getMD5Checksum` streams a file through a `MessageDigest` in chunks of at
  most 1024 bytes. It renders the digest as lower-case hexadecimal, two digits
  per byte.

The project has four modules:

- `JavaIo` (`java_io.dfy`) gives the platform pieces the code uses:
  - a Java `byte` as a signed 8-bit newtype;
  - the checked `IOException`s as the error side of a `Result`;
  - an `InputStream` class whose `Read` hands out the next chunk of a file. The
    chunk size is the stream's own choice, and a damaged file makes `Read` fail
    partway through;
  - a `FileSystem` class with `Open` and `DeleteIfExists`. Opening a file
    without read permission fails with an exception, and so does deleting a
    *locked* path.
- `HexFormat` (`hex_format.dfy`):
  - the `%02x` rendering;
  - its inverse `Unhex`, and proofs that the rendering is lossless;
  - the `StringBuilder` loop, proved against the rendering function `Hex`.
- `Md5Checksum` (`md5_checksum.dfy`):
  - a `MessageDigest` class;
  - the read loop of `getMD5Checksum`, proved to return `Checksum`: the
    hexadecimal digest of the whole file content, whatever chunk sizes the
    stream picks, or the exception.
  The digest algorithm is a parameter `md5: seq<JByte> -> seq<JByte>`.
- `DuplicateFileRemover` (`duplicate_file_remover.dfy`) holds the two loops of
  `findAndDeleteDuplicateFiles`.
  - The map-building loop is proved to compute `Groups`, a left fold over the
    walk. `Groups` is related to `Matching`, the walk filtered by checksum.
  - The deletion loop visits the key set in an arbitrary order (a `:|` choice).
    It is proved to hand `deleteIfExists` exactly the multiset `TargetsOf` the
    group tails. `TargetsOf` does not depend on the visiting order.
  - `TargetsOf` is proved equal to an independent definition, `Duplicates`:
    the walked paths whose checksum an earlier walked path already had.
  - The whole method is proved to leave exactly the files it started with,
    minus the duplicates that are not locked.

The code has no worker pool, no retry, no mode that moves files to a review
directory and no sorting of groups, and none of these is modelled. In the code,
a failed deletion is reported and skipped. It is never retried.

## Model

| member | source | states |
|---|---|---|
| JavaIo.InputStream.Read | DuplicateFileRemover.java:67 | `fis.read(buffer)` returns -1 exactly at end of file. Otherwise it copies the next 1..buffer.length bytes of the file into the buffer and advances, or throws when those bytes contain an unreadable one. |
| JavaIo.FileSystem.Open | DuplicateFileRemover.java:63 | `Files.newInputStream` yields a fresh stream at offset 0 over the file's bytes. It throws exactly when the file does not exist (no such file) or may not be opened (access denied). |
| JavaIo.FileSystem.DeleteIfExists | DuplicateFileRemover.java:48 | `Files.deleteIfExists` answers false and changes nothing for a missing file. It throws and changes nothing for a file whose deletion is refused. Otherwise it removes exactly that file and answers true. |
| HexFormat.Unsigned | DuplicateFileRemover.java:73 | `%x` prints a signed byte as the value in 0..255 that is congruent to it modulo 256. |
| HexFormat.Signed | DuplicateFileRemover.java:73 | Every value 0..255 is printed for some byte. |
| HexFormat.ByteToHex | DuplicateFileRemover.java:73 | `%02x` gives exactly two lower-case hex digits, high nibble first, whose value is the byte's unsigned value. |
| HexFormat.HexAt | DuplicateFileRemover.java:71-75 | Characters 2i and 2i+1 of the rendering are the high and low nibbles of digest byte i. |
| HexFormat.UnhexHex | DuplicateFileRemover.java:71-75 | Decoding the rendering gives back the digest bytes. |
| HexFormat.HexUnhex | DuplicateFileRemover.java:71-75 | Any text that decodes is the rendering of what it decodes to. |
| HexFormat.UnhexDefined | DuplicateFileRemover.java:71-75 | Text decodes exactly when it is lower-case hex of even length. |
| HexFormat.HexIsLowerHex | DuplicateFileRemover.java:71-75 | The rendering contains only lower-case hex digits and has even length. |
| HexFormat.HexInjective | DuplicateFileRemover.java:71-75 | Different digests render as different strings, so keying the map by the string loses nothing. |
| HexFormat.HexString | DuplicateFileRemover.java:71-75 | The `StringBuilder` loop produces `Hex(digest)`, two digits per byte in byte order. |
| Md5Checksum.MessageDigest.Update | DuplicateFileRemover.java:68 | `md.update(buffer, 0, n)` appends exactly the first n buffer bytes to the digest input. |
| Md5Checksum.MessageDigest.Digest | DuplicateFileRemover.java:70 | `md.digest()` applies the algorithm to all the input fed so far and resets. |
| Md5Checksum.Checksum | DuplicateFileRemover.java:62-77 | The checksum is defined exactly when the file exists, may be opened and every byte of it can be read. It is then lower-case hex of twice the digest length. |
| Md5Checksum.SameChecksumIffSameDigest | DuplicateFileRemover.java:70-75 | Two readable files get equal checksum strings exactly when the algorithm gives their contents equal digests. |
| Md5Checksum.GetMd5Checksum | DuplicateFileRemover.java:62-77 | The read loop feeds every byte of the file to the digest once and in order, whatever the chunk sizes, including for an empty file. It returns the checksum of the whole content, or the exception that opening or reading threw. |
| DuplicateFileRemover.HashOutcome | DuplicateFileRemover.java:23-34 | The `try`/`catch` around `getMD5Checksum`: a path yields a checksum exactly when the file exists, may be opened and can be read in full, and that checksum is lower-case hex of twice the digest length. Otherwise the exception is caught and the path yields nothing. |
| DuplicateFileRemover.Insert | DuplicateFileRemover.java:26-31 | One run of the `forEach` body: a path whose hashing threw leaves the map unchanged. Otherwise the keys gain the path's checksum, that checksum's list (empty if new) gains the path at its end, and every other list is unchanged. |
| DuplicateFileRemover.Groups | DuplicateFileRemover.java:26-31 | A key is created only just before a path is appended under it, so no list in the map is empty. |
| DuplicateFileRemover.Matching | DuplicateFileRemover.java:31 | The list for a checksum holds only walked paths that hash to that checksum. |
| DuplicateFileRemover.GroupsAreMatching | DuplicateFileRemover.java:22-31 | After the walk, the keys are exactly the checksums of the walked paths. The list under each key is non-empty and is exactly the walked paths with that checksum, in walk order. |
| DuplicateFileRemover.DigestsMember | DuplicateFileRemover.java:25-28 | A checksum is a key exactly when some walked path hashes to it. |
| DuplicateFileRemover.MatchingMultiplicity | DuplicateFileRemover.java:31 | A path occurs in the list for h as often as the walk yields it when it hashes to h, and never otherwise. |
| DuplicateFileRemover.Placement | DuplicateFileRemover.java:23-34 | A path whose hashing throws is in no list. A hashed path is in the list of its own checksum, once per time the walk yields it, and in no other list. |
| DuplicateFileRemover.Tail | DuplicateFileRemover.java:41-44 | The entries at indices 1..size-1 of a list of more than one path, and nothing for a shorter list. |
| DuplicateFileRemover.SingletonGroupsDeleteNothing | DuplicateFileRemover.java:41 | Lists of at most one path contribute no deletion. |
| DuplicateFileRemover.TargetsOfPick | DuplicateFileRemover.java:38 | The deletion targets do not depend on the order in which the `HashMap` hands out its keys. |
| DuplicateFileRemover.TargetsAreDuplicates | DuplicateFileRemover.java:38-53 | The paths handed to `deleteIfExists` (indices 1..size-1 of every list) are exactly the walked paths whose checksum an earlier walked path already had, with multiplicity. |
| DuplicateFileRemover.DuplicateCount | DuplicateFileRemover.java:38-44 | The number of deletion targets is the number of hashed paths minus the number of distinct checksums. |
| DuplicateFileRemover.DuplicatesMember | DuplicateFileRemover.java:25-48 | A path is a target exactly when the walk yields it at a position where an earlier path already had its checksum. |
| DuplicateFileRemover.FirstIsKept | DuplicateFileRemover.java:44 | When the walk yields each path once, the path at index 0 of every list is never a target. |
| DuplicateFileRemover.DoomedAdd | DuplicateFileRemover.java:48 | Handing one more path to `deleteIfExists` removes it unless its deletion is refused. |
| DuplicateFileRemover.KeptFilesSurvive | DuplicateFileRemover.java:44-48 | When the walk yields each path once, every list's first file still exists afterwards, with unchanged content. |
| DuplicateFileRemover.DuplicatesDistinct | DuplicateFileRemover.java:44-48 | When the walk yields each path once, no path is handed to `deleteIfExists` twice. |
| DuplicateFileRemover.RemovedCount | DuplicateFileRemover.java:38-48 | When the walk yields each path once and no walked path is locked, the run removes as many files as there are hashed paths minus distinct checksums. |
| DuplicateFileRemover.SameGroupIffSameDigest | DuplicateFileRemover.java:25-31 | Two hashed walked paths share a list exactly when the algorithm gives their contents equal digests. |
| DuplicateFileRemover.ThreeFileGroups | DuplicateFileRemover.java:22-31 | Worked example: a, b with one checksum and c with another give the map {h1: [a, b], h2: [c]}. |
| DuplicateFileRemover.ThreeFileDuplicates | DuplicateFileRemover.java:38-48 | Worked example: in that walk, b is the only deletion target. |
| DuplicateFileRemover.UnopenableExample | DuplicateFileRemover.java:23-34 | Worked example: of two empty files, one that may not be opened is skipped, so the other is alone and nothing is a deletion target. |
| DuplicateFileRemover.IndexByChecksum | DuplicateFileRemover.java:20-35 | The `forEach` loop builds exactly `Groups` of the walk. A path whose hashing throws is skipped, and the loop continues. |
| DuplicateFileRemover.DeleteAllButFirst | DuplicateFileRemover.java:44-53 | The inner loop removes the list's paths at indices 1..size-1, except the locked ones. Nothing else changes. |
| DuplicateFileRemover.DeleteDuplicates | DuplicateFileRemover.java:38-55 | Visiting the keys in any order removes exactly `TargetsOf` the map, except the locked paths. Nothing else changes. |
| DuplicateFileRemover.FindAndDeleteDuplicateFiles | DuplicateFileRemover.java:14-59 | If the walk cannot start, no file changes. Otherwise the files left are the original ones minus the unlocked duplicates, and every file that is not a duplicate is untouched. When the walk yields each path once, each list's first file is not a duplicate (`KeptFilesSurvive`). |

## Left out

- The directory traversal (`Files.walk`, `Files::isRegularFile`) is file-system I/O. The walk is an input: either the list of regular-file paths, in walk order, or the error thrown at the root.
- An `UncheckedIOException` thrown partway through the walk, which would abandon the scan before the deletion loop, is not modelled.
- Symbolic links and a file reachable under two paths are not modelled. Paths are plain strings, and two paths are two files.
- The MD5 algorithm and `MessageDigest.getInstance` are a foreign library. The algorithm is the parameter `md5`, any function from the whole input to the digest bytes. `NoSuchAlgorithmException` cannot occur in the model.
- Closing the stream (try-with-resources) has no observable effect on the files, so it is not modelled.
- Console output and `printStackTrace` are reporting only, so they are not modelled.
- `main` with its hard-coded path is a trivial wrapper and is not modelled.
- DuplicateFileRemover.DeleteDuplicates: the paths it hands to `deleteIfExists` are a ghost out-parameter. The method's contract about the file system is what the program exhibits.
- DuplicateFileRemover.DeleteAllButFirst: the inner `for` loop is a method of its own rather than inline. This keeps each proof small; the behaviour is unchanged.
- Exceptions from `deleteIfExists` are modelled only as a refused deletion of a `locked` path. The refusal leaves the file in place, and the loop continues.
