/** `get_file_hash`: the digest of a file's content, fed to the digest
    accumulator in 4096-byte chunks until a read returns nothing.

    MD5 itself is not modelled: `md5` is a parameter standing for the
    finalised digest of everything fed to the accumulator, so the accumulator's
    state is the sequence of bytes fed so far. Whether opening or reading the
    file raises is decided by the oracle `unreadable`. */
module Hasher {
  import opened Common
  import opened FileTree

  type Digest = string

  /** The error `get_file_hash` raises (IOError / PermissionError). */
  datatype HashError = AccessError(path: Path)

  const ChunkSize: nat := 4096

  /** `f.read(4096)` on a regular file whose read position is `pos`. */
  function Read(content: Bytes, pos: nat): (chunk: Bytes)
    requires pos <= |content|
    ensures |chunk| == if |content| - pos < ChunkSize then |content| - pos else ChunkSize
    ensures chunk == content[pos..pos + |chunk|]
  {
    if |content| - pos < ChunkSize then content[pos..] else content[pos..pos + ChunkSize]
  }

  function Concat(chunks: seq<Bytes>): Bytes {
    if chunks == [] then [] else Concat(chunks[..|chunks| - 1]) + chunks[|chunks| - 1]
  }

  /** The chunks a chunked read hands over: none empty, all full but the last. */
  ghost predicate WellChunked(chunks: seq<Bytes>) {
    forall i :: 0 <= i < |chunks| ==>
      0 < |chunks[i]| <= ChunkSize && (i < |chunks| - 1 ==> |chunks[i]| == ChunkSize)
  }

  method GetFileHash(path: Path, content: Bytes, unreadable: Path -> bool, md5: Bytes -> Digest)
    returns (r: Result<Digest, HashError>, ghost chunks: seq<Bytes>)
    ensures unreadable(path) ==> r == Failure(AccessError(path))
    ensures !unreadable(path) ==> r == Success(md5(content))
    ensures !unreadable(path) ==> Concat(chunks) == content && WellChunked(chunks)
  {
    chunks := [];
    if unreadable(path) {
      return Failure(AccessError(path)), chunks;
    }
    var fed: Bytes := [];
    var pos: nat := 0;
    var chunk := Read(content, pos);
    while chunk != []
      invariant pos <= |content|
      invariant chunk == Read(content, pos)
      invariant fed == content[..pos] == Concat(chunks)
      invariant WellChunked(chunks)
      invariant chunks != [] ==> |chunks[|chunks| - 1]| == ChunkSize || pos == |content|
      decreases |content| - pos
    {
      ghost var before := chunks;
      fed := fed + chunk;
      chunks := chunks + [chunk];
      assert chunks[..|chunks| - 1] == before;
      pos := pos + |chunk|;
      chunk := Read(content, pos);
    }
    assert content[..pos] == content;
    r := Success(md5(fed));
  }
}
