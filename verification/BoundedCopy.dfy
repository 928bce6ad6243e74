/** The two streaming loops of the store: `copy_bounded` and `verify_body_digest` in store.rs. */
module BoundedCopy {
  import opened Wrappers
  import opened DigestText
  import opened ArtifactTypes

  const STREAM_BUFFER_BYTES := 64 * 1024

  /** A byte source that may split its bytes in any way and may fail at any read. */
  class Reader {
    var remaining: seq<byte>
    ghost var faults: nat

    constructor (bytes: seq<byte>)
      ensures remaining == bytes && faults == 0
    {
      remaining := bytes;
      faults := 0;
    }

    method Read(limit: nat) returns (r: Option<seq<byte>>)
      requires 0 < limit
      modifies this
      ensures faults == old(faults) + if r.None? then 1 else 0
      ensures r.None? ==> remaining == old(remaining)
      ensures r.Some? ==>
        && old(remaining) == r.value + remaining
        && |r.value| <= limit
        && (r.value == [] <==> old(remaining) == [])
    {
      if * {
        faults := faults + 1;
        return None;
      }
      var most := if |remaining| < limit then |remaining| else limit;
      var count :| 0 <= count <= most && (count == 0 <==> most == 0);
      r := Some(remaining[..count]);
      remaining := remaining[count..];
    }
  }

  /** A byte sink whose writes may fail after storing part of the chunk. */
  class Writer {
    var written: seq<byte>
    ghost var faults: nat

    constructor ()
      ensures written == [] && faults == 0
    {
      written := [];
      faults := 0;
    }

    method WriteAll(chunk: seq<byte>) returns (ok: bool)
      modifies this
      ensures faults == old(faults) + if ok then 0 else 1
      ensures ok ==> written == old(written) + chunk
      ensures old(written) <= written <= old(written) + chunk
    {
      ok := *;
      var count :| 0 <= count <= |chunk| && (ok ==> count == |chunk|);
      written := written + chunk[..count];
      if !ok {
        faults := faults + 1;
      }
    }
  }

  /**
   Copies a body of declared size.  Unless a read or write fails, the source's bytes, however it
   splits them, are accepted exactly when there are as many as declared, and at most one more
   than that is ever read.
   */
  method CopyBounded(source: Reader, destination: Writer, expectedSize: nat, maximumSize: nat,
                     hash: seq<byte> -> Digest) returns (r: Result<Digest, StoreError>)
    modifies source, destination
    ensures source.faults >= old(source.faults) && destination.faults >= old(destination.faults)
    ensures source.faults == old(source.faults) && destination.faults == old(destination.faults) ==>
      (r.Success? <==> expectedSize <= maximumSize && |old(source.remaining)| == expectedSize)
    ensures r == Failure(Io) ==>
      source.faults > old(source.faults) || destination.faults > old(destination.faults)
    ensures r == Failure(TooLarge) <==> expectedSize > maximumSize
    ensures r.Success? ==> |old(source.remaining)| == expectedSize && r.value == hash(old(source.remaining))
    ensures r.Success? ==> destination.written == old(destination.written) + old(source.remaining)
    ensures r.Failure? && r.error !in {TooLarge, Io} ==>
      r.error == SizeMismatch && |old(source.remaining)| != expectedSize
    ensures |source.remaining| + expectedSize + 1 >= |old(source.remaining)|
    ensures |destination.written| <= |old(destination.written)| + expectedSize
    ensures old(destination.written) <= destination.written
            <= old(destination.written) + old(source.remaining)
  {
    if expectedSize > maximumSize {
      return Failure(TooLarge);
    }
    ghost var body, before := source.remaining, destination.written;
    var hashed: seq<byte> := [];
    var written := 0;
    while true
      invariant body == hashed + source.remaining
      invariant |hashed| == written <= expectedSize
      invariant destination.written == before + hashed
      invariant source.faults == old(source.faults) && destination.faults == old(destination.faults)
      decreases |source.remaining|
    {
      var remaining := expectedSize - written;
      var readLimit := if remaining + 1 < STREAM_BUFFER_BYTES then remaining + 1 else STREAM_BUFFER_BYTES;
      var chunk := source.Read(readLimit);
      if chunk.None? {
        return Failure(Io);
      }
      if chunk.value == [] {
        break;
      }
      if |chunk.value| > remaining {
        return Failure(SizeMismatch);
      }
      var ok := destination.WriteAll(chunk.value);
      assert before + hashed + chunk.value <= before + body;
      if !ok {
        return Failure(Io);
      }
      hashed := hashed + chunk.value;
      written := written + |chunk.value|;
    }
    assert hashed == body;
    if written != expectedSize {
      return Failure(SizeMismatch);
    }
    r := Success(hash(hashed));
  }

  /** The same loop over a stored body: unless a read fails, it accepts exactly the recorded size and digest. */
  method VerifyBodyDigest(body: Reader, metadata: ArtifactMetadata, hash: seq<byte> -> Digest)
    returns (r: Result<(), StoreError>)
    modifies body
    ensures body.faults >= old(body.faults)
    ensures body.faults == old(body.faults) ==>
      (r.Success? <==>
         |old(body.remaining)| == metadata.size && DigestMatches(hash, metadata, old(body.remaining)))
    ensures r == Failure(Io) ==> body.faults > old(body.faults)
    ensures r.Success? ==>
      |old(body.remaining)| == metadata.size && DigestMatches(hash, metadata, old(body.remaining))
    ensures r.Failure? && r.error != Io ==>
      || (r.error == CorruptArtifact(metadata.id, CorruptBodySize)
          && |old(body.remaining)| != metadata.size)
      || (r.error == CorruptArtifact(metadata.id, BodyDigest)
          && |old(body.remaining)| == metadata.size
          && !DigestMatches(hash, metadata, old(body.remaining)))
    ensures |body.remaining| + metadata.size + 1 >= |old(body.remaining)|
  {
    ghost var bytes := body.remaining;
    var hashed: seq<byte> := [];
    var read := 0;
    while true
      invariant bytes == hashed + body.remaining
      invariant |hashed| == read <= metadata.size
      invariant body.faults == old(body.faults)
      decreases |body.remaining|
    {
      var remaining := metadata.size - read;
      var readLimit := if remaining + 1 < STREAM_BUFFER_BYTES then remaining + 1 else STREAM_BUFFER_BYTES;
      var chunk := body.Read(readLimit);
      if chunk.None? {
        return Failure(Io);
      }
      if chunk.value == [] {
        break;
      }
      if |chunk.value| > remaining {
        return Failure(CorruptArtifact(metadata.id, CorruptBodySize));
      }
      hashed := hashed + chunk.value;
      read := read + |chunk.value|;
    }
    assert hashed == bytes;
    if read != metadata.size {
      return Failure(CorruptArtifact(metadata.id, CorruptBodySize));
    }
    if hash(hashed) != metadata.sha256 {
      return Failure(CorruptArtifact(metadata.id, BodyDigest));
    }
    r := Success(());
  }
}
