/**
 * `getMD5Checksum`: stream a file through a message digest in chunks of at
 * most 1024 bytes and render the digest as hexadecimal text. The digest
 * algorithm itself is a parameter: any function from the whole input to the
 * digest bytes.
 */
module Md5Checksum {
  import opened JavaIo
  import opened HexFormat

  /** Size of the read buffer. */
  const BufferSize: nat := 1024

  /**
   * `MessageDigest`: accumulates the bytes fed to it and, on `Digest`, applies
   * its algorithm to all of them and starts over.
   */
  class MessageDigest {
    const algorithm: seq<JByte> -> seq<JByte>
    var input: seq<JByte>  // the bytes fed since the last reset

    constructor (algorithm: seq<JByte> -> seq<JByte>)
      ensures this.algorithm == algorithm && input == []
    {
      this.algorithm := algorithm;
      input := [];
    }

    /** `update(buffer, offset, len)` */
    method Update(buffer: array<JByte>, offset: nat, len: nat)
      requires offset + len <= buffer.Length
      modifies this`input
      ensures input == old(input) + buffer[offset..offset + len]
    {
      input := input + buffer[offset..offset + len];
    }

    /** `digest()` */
    method Digest() returns (d: seq<JByte>)
      modifies this`input
      ensures d == algorithm(old(input)) && input == []
    {
      d := algorithm(input);
      input := [];
    }
  }

  /**
   * What `getMD5Checksum(file)` answers: the exception it throws when the file
   * is missing, may not be opened, or cannot be read, otherwise the hexadecimal rendering of the
   * digest of the file's whole content.
   */
  function Checksum(files: map<Path, FileData>, file: Path, md5: seq<JByte> -> seq<JByte>): (r: Result<string>)
    ensures r.Ok? <==> file in files && files[file].Readable()
    ensures r.Ok? ==> IsLowerHex(r.value) && |r.value| == 2 * |md5(files[file].content)|
  {
    if file !in files then Err(NoSuchFile)
    else if !files[file].openable then Err(AccessDenied)
    else if !files[file].Readable() then Err(ReadFailure)
    else
      HexIsLowerHex(md5(files[file].content));
      Ok(Hex(md5(files[file].content)))
  }

  /**
   * Two readable files get the same checksum exactly when the digest
   * algorithm maps their contents to the same bytes.
   */
  lemma SameChecksumIffSameDigest(files: map<Path, FileData>, p: Path, q: Path, md5: seq<JByte> -> seq<JByte>)
    requires Checksum(files, p, md5).Ok? && Checksum(files, q, md5).Ok?
    ensures Checksum(files, p, md5) == Checksum(files, q, md5)
        <==> md5(files[p].content) == md5(files[q].content)
  {
    if Checksum(files, p, md5) == Checksum(files, q, md5) {
      HexInjective(md5(files[p].content), md5(files[q].content));
    }
  }

  /**
   * `getMD5Checksum(file)`: every byte of the file reaches the digest once and
   * in order, whatever chunk sizes the stream chooses, so the result is the
   * checksum of the whole content; an exception from opening or reading
   * becomes the error result.
   */
  method GetMd5Checksum(fs: FileSystem, file: Path, md5: seq<JByte> -> seq<JByte>) returns (r: Result<string>)
    ensures r == Checksum(fs.files, file, md5)
  {
    var openResult := fs.Open(file);
    if openResult.Err? {
      return Err(openResult.error);
    }
    var fis := openResult.value;
    var buffer := new JByte[BufferSize];
    var md := new MessageDigest(md5);
    while true
      invariant fis.Valid()
      invariant fis.content == fs.files[file].content && fis.badOffset == fs.files[file].badOffset
      invariant md.algorithm == md5 && md.input == fis.content[..fis.pos]
      invariant !fis.BadWithin(0, fis.pos)
      decreases |fis.content| - fis.pos
    {
      ghost var before := fis.pos;
      var read := fis.Read(buffer);
      if read.Err? {
        return Err(read.error);
      }
      var numBytesRead := read.value;
      if numBytesRead == -1 {
        break;
      }
      md.Update(buffer, 0, numBytesRead);
      assert fis.content[..fis.pos] == fis.content[..before] + fis.content[before..fis.pos];
    }
    assert fis.content[..fis.pos] == fis.content;
    var digest := md.Digest();
    var result := HexString(digest);
    return Ok(result);
  }
}
