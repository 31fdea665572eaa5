/** Creation of torrent info from a file (peer/torrent.c). */
module TorrentCreate {
  import opened Arithmetic
  import opened Common
  import opened Words
  import opened Bitset
  import opened Torrent
  import opened Storage
  import opened PieceStore
  import opened Sha1
  import Sha1Avr

  /** The i-th stretch of pieceSize bytes, cut off at the end of the data. */
  ghost function Chunk(data: seq<byte>, pieceSize: nat, i: nat): seq<byte> {
    var start := Min(i * pieceSize, |data|);
    data[start..Min(start + pieceSize, |data|)]
  }

  /** The hashes of the first |hashes| chunks. */
  ghost predicate AreHashes(data: seq<byte>, pieceSize: nat, hashes: seq<Sha1Digest>) {
    forall i :: 0 <= i < |hashes| ==> hashes[i] == Digest(Chunk(data, pieceSize, i))
  }

  /** Splits the file into pieces and hashes each; fails if 32 pieces do not reach the end of the file. */
  method Create(file: File, pieceSize: uint16) returns (ok: bool, info: Info)
    modifies file`pos
    ensures ok <==> pieceSize == 0 || file.data.Length <= 31 * pieceSize
    ensures ok ==> info.fileSize == file.data.Length % 0x1_0000 && info.pieceSize == pieceSize
    ensures ok ==> info.NumPieces() == if pieceSize == 0 then 1 else PieceCount(file.data.Length, pieceSize)
    ensures ok ==> AreHashes(file.data[..], pieceSize, info.hashes)
  {
    ghost var data := file.data[..];
    info := Info(file.data.Length % 0x1_0000, pieceSize, []);
    file.Seek(0);
    var hashes: seq<Sha1Digest> := [];
    var context := new Sha1Avr.Context();
    var length := 0;
    while true
      invariant fresh(context) && fresh(context.h) && fresh(context.nextBlock) && context.Allocated()
      invariant file.data[..] == data && |hashes| < MAX_PIECES && AreHashes(data, pieceSize, hashes)
      invariant AtChunk(file.data.Length, pieceSize, |hashes|, file.pos)
      decreases MAX_PIECES - |hashes|
    {
      ghost var n, start := |hashes|, file.pos;
      length, hashes := HashChunk(context, file, pieceSize, hashes);
      if !(|hashes| < MAX_PIECES && length != 0) {
        Finished(file.data.Length, pieceSize, n, start, |hashes|, length);
        break;
      }
    }
    if length != 0 {
      return false, info;
    }
    info := info.(hashes := hashes);
    ok := true;
  }

  /** The file is positioned at the start of chunk n, and chunk n - 1 was not empty. */
  ghost predicate AtChunk(total: nat, pieceSize: nat, n: nat, pos: nat) {
    && pos == Min(n * pieceSize, total)
    && (n > 0 ==> (n - 1) * pieceSize < total && pieceSize > 0)
  }

  /** Starts a fresh digest of the next chunk of the file. */
  method DigestChunk(context: Sha1Avr.Context, file: File, pieceSize: uint16, ghost n: nat) returns (length: nat)
    requires context.Allocated() && context.nextBlock != file.data
    requires AtChunk(file.data.Length, pieceSize, n, file.pos)
    modifies context, context.h, context.nextBlock, file`pos
    ensures context.Valid() && context.message == Chunk(file.data[..], pieceSize, n)
    ensures length == Min(pieceSize, file.data.Length - old(file.pos)) && file.pos == old(file.pos) + length
    ensures length > 0 ==> AtChunk(file.data.Length, pieceSize, n + 1, file.pos)
  {
    context.Reset();
    ChunkLength(file.data[..], pieceSize, n, file.pos);
    length := DigestFile(context, file, pieceSize);
  }

  /** Appends the hash of the next chunk unless the file has ended; an empty file has one empty chunk. */
  method HashChunk(context: Sha1Avr.Context, file: File, pieceSize: uint16, hashes: seq<Sha1Digest>)
      returns (length: nat, more: seq<Sha1Digest>)
    requires context.Allocated() && context.nextBlock != file.data
    requires AtChunk(file.data.Length, pieceSize, |hashes|, file.pos)
    requires AreHashes(file.data[..], pieceSize, hashes)
    modifies context, context.h, context.nextBlock, file`pos
    ensures context.Allocated()
    ensures length == Min(pieceSize, file.data.Length - old(file.pos))
    ensures |more| == if |hashes| == 0 || length > 0 then |hashes| + 1 else |hashes|
    ensures AreHashes(file.data[..], pieceSize, more)
    ensures length > 0 ==> AtChunk(file.data.Length, pieceSize, |more|, file.pos)
  {
    more := hashes;
    length := DigestChunk(context, file, pieceSize, |hashes|);
    if |hashes| == 0 || length > 0 {
      var digest := context.Result();
      HashesStep(file.data[..], pieceSize, hashes, digest);
      more := hashes + [digest];
    }
  }

  lemma HashesStep(data: seq<byte>, pieceSize: nat, hashes: seq<Sha1Digest>, digest: Sha1Digest)
    requires AreHashes(data, pieceSize, hashes) && digest == Digest(Chunk(data, pieceSize, |hashes|))
    ensures AreHashes(data, pieceSize, hashes + [digest])
  {
  }

  /** Reading the next chunk moves the position to the start of the one after. */
  lemma ChunkLength(data: seq<byte>, pieceSize: nat, n: nat, pos: nat)
    requires AtChunk(|data|, pieceSize, n, pos)
    ensures var length := Min(pieceSize, |data| - pos);
            && Chunk(data, pieceSize, n) == data[pos..pos + length]
            && (length > 0 ==> AtChunk(|data|, pieceSize, n + 1, pos + length))
  {
    MulDistributes(n, pieceSize);
  }

  lemma Finished(total: nat, pieceSize: nat, n: nat, pos: nat, count: nat, length: nat)
    requires n < MAX_PIECES && AtChunk(total, pieceSize, n, pos) && length == Min(pieceSize, total - pos)
    requires count == if n == 0 || length > 0 then n + 1 else n
    requires !(count < MAX_PIECES && length != 0)
    ensures length == 0 <==> pieceSize == 0 || total <= 31 * pieceSize
    ensures length == 0 ==> count == if pieceSize == 0 then 1 else PieceCount(total, pieceSize)
  {
    MulDistributes(n, pieceSize);
    if length != 0 {
      assert n == 31;
    } else if pieceSize > 0 {
      assert total <= n * pieceSize;
      MulMono(n, 31, pieceSize);
      CountUnique(total, pieceSize, count);
    }
  }

  /** A created descriptor is proper and covers the file exactly if its pieces are not empty
      and the file size fits its 16-bit field. */
  lemma CreatedIsProperIff(length: nat, info: Info)
    requires info.pieceSize == 0 || length <= 31 * info.pieceSize
    requires info.fileSize == length % 0x1_0000
    requires info.NumPieces() == if info.pieceSize == 0 then 1 else PieceCount(length, info.pieceSize)
    ensures info.Proper() && info.fileSize == length <==> info.pieceSize > 0 && length < 0x1_0000
  {
    if info.pieceSize > 0 {
      CountBounds(length, info.pieceSize);
      if info.NumPieces() > 31 {
        MulMono(31, info.NumPieces() - 1, info.pieceSize);
      }
    }
  }

  /** Creation and verification cut the file at the same places. */
  lemma ChunkIsPiece(data: seq<byte>, info: Info, i: nat)
    requires info.Proper() && info.IsValid(i) && info.fileSize == |data|
    ensures Chunk(data, info.pieceSize, i) == Piece(info, data, i)
  {
    OffsetExact(info, i);
    Abut(info, i);
    CountBounds(info.fileSize, info.pieceSize);
    if i + 1 < info.NumPieces() {
      OffsetExact(info, i + 1);
      MulDistributes(i, info.pieceSize);
    }
  }

  /** Every piece of the file a torrent was created from verifies. */
  lemma CreatedIsSeed(data: seq<byte>, info: Info)
    requires info.Proper() && info.fileSize == |data| && AreHashes(data, info.pieceSize, info.hashes)
    ensures VerifiedBelow(info, SHA1, data, info.NumPieces(), Below(info.NumPieces()))
  {
    forall i: nat | info.IsValid(i) ensures Verified(info, SHA1, data, i) {
      ChunkIsPiece(data, info, i);
    }
  }

  /** A node that creates a torrent and then opens the same file starts as a seed. */
  method CreateAndOpen(file: File, pieceSize: uint16) returns (ok: bool, seed: bool)
    requires pieceSize > 0 && file.data.Length < 0x1_0000
    modifies file`pos
    ensures ok <==> file.data.Length <= 31 * pieceSize
    ensures seed <==> ok
  {
    var info;
    ok, info := Create(file, pieceSize);
    if !ok {
      return false, false;
    }
    CreatedIsProperIff(file.data.Length, info);
    CreatedIsSeed(file.data[..], info);
    var store := new Store(info, file);
    VerifiedUnique(info, SHA1, file.data[..], info.NumPieces(), store.Own(), Below(info.NumPieces()));
    seed := store.IsSeed();
  }

  lemma VerifiedUnique(info: Info, digest: seq<byte> -> Sha1Digest, file: seq<byte>, n: nat, a: set<nat>, b: set<nat>)
    requires info.Proper() && info.fileSize <= |file| && n <= info.NumPieces()
    requires VerifiedBelow(info, digest, file, n, a) && VerifiedBelow(info, digest, file, n, b)
    ensures a == b
  {
    forall k: nat ensures k in a <==> k in b {
    }
  }
}
