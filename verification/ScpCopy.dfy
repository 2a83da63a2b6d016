/** The chunk loop of the file upload (Client::scpFileCopy, client/core/sshclient.cpp). */
module ScpCopy {

  const BUFFER_SIZE: nat := 16384

  /** Conversion of the 64-bit file size to int. */
  function AsInt(size: nat): (n: int)
    ensures n <= size
  {
    var low := size % 0x1_0000_0000;
    if low < 0x8000_0000 then low else low - 0x1_0000_0000
  }

  function Flatten<T>(chunks: seq<seq<T>>): seq<T> {
    if chunks == [] then [] else Flatten(chunks[..|chunks| - 1]) + chunks[|chunks| - 1]
  }

  /** Full chunks, the last of which may be the nonzero rest. */
  predicate Chunked<T>(chunks: seq<seq<T>>, size: int) {
    forall i :: 0 <= i < |chunks| ==>
      |chunks[i]| == BUFFER_SIZE || (i == |chunks| - 1 && |chunks[i]| == size % BUFFER_SIZE && |chunks[i]| > 0)
  }

  datatype Outcome = NoError | FileError | SshError

  /**
   * The loop, with reads and writes that may fail. Success means that exactly as many bytes
   * have been written as the converted size says, in order.
   */
  method CopyChunks<T>(file: seq<T>) returns (outcome: Outcome, written: seq<seq<T>>)
    ensures Flatten(written) <= file
    ensures outcome.NoError? ==> Chunked(written, AsInt(|file|))
    ensures outcome.NoError? ==> Flatten(written) == file[..Transferred(|file|)]
  {
    var localFileSize := AsInt(|file|);
    var transferred, currentChunkSize := 0, BUFFER_SIZE;
    written := [];
    while transferred < localFileSize
      invariant 0 <= transferred <= |file| && (transferred <= localFileSize || localFileSize < 0)
      invariant Flatten(written) == file[..transferred]
      invariant transferred < localFileSize ==>
                  transferred % BUFFER_SIZE == 0 && currentChunkSize == BUFFER_SIZE
                  && forall i :: 0 <= i < |written| ==> |written[i]| == BUFFER_SIZE
      invariant Chunked(written, localFileSize)
      invariant localFileSize < 0 ==> transferred == 0
      decreases localFileSize - transferred
    {
      if localFileSize - transferred < BUFFER_SIZE {
        currentChunkSize := localFileSize % BUFFER_SIZE;
      }
      RestSize(localFileSize, transferred);
      var readOk: bool := *;
      if !readOk { return FileError, written; }
      var chunk := file[transferred..transferred + currentChunkSize];
      var writeOk: bool := *;
      if !writeOk { return SshError, written; }
      ghost var before := written;
      written := written + [chunk];
      assert written[..|before|] == before;
      assert file[..transferred] + chunk == file[..transferred + currentChunkSize];
      transferred := transferred + currentChunkSize;
    }
    return NoError, written;
  }

  lemma RestSize(size: nat, done: nat)
    requires done < size && done % BUFFER_SIZE == 0
    ensures size - done < BUFFER_SIZE ==> size % BUFFER_SIZE == size - done
    ensures (done + BUFFER_SIZE) % BUFFER_SIZE == 0
  {
  }

  /** How many bytes a successful upload transfers. */
  function Transferred(size: nat): (n: nat)
    ensures n <= size
  {
    if AsInt(size) < 0 then 0 else AsInt(size)
  }

  /** A successful upload is complete exactly for files below two gibibytes. */
  lemma CompleteIff<T>(file: seq<T>)
    ensures file[..Transferred(|file|)] == file <==> |file| < 0x8000_0000
  {
    assert |file[..Transferred(|file|)]| == Transferred(|file|);
  }
}
