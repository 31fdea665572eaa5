/** Piece storage and verification (peer/piece.c). */
module PieceStore {
  import opened Common
  import opened Words
  import opened Bitset
  import opened Popcount
  import opened Torrent
  import opened Storage
  import opened Sha1
  import Sha1Avr

  const BUFFER_SIZE: nat := 256

  /** The SHA-1 digest as a function value, for specifications that hold for any digest. */
  ghost const SHA1: seq<byte> -> Sha1Digest := m => Digest(m)

  /** The digest has been fed the file from start up to the current position, after the bytes before. */
  ghost predicate Fed(context: Sha1Avr.Context, file: File, data: seq<byte>, start: nat, before: seq<byte>)
    reads context, context.h, context.nextBlock, file, file.data
  {
    && context.Valid() && file.data[..] == data && start <= file.pos <= |data|
    && context.message == before + data[start..file.pos]
  }

  /** Feeds the bytes of one read to the digest. */
  method DigestSome(
    context: Sha1Avr.Context, file: File, limit: nat, ghost data: seq<byte>, ghost start: nat, ghost before: seq<byte>)
      returns (read: nat)
    requires Fed(context, file, data, start, before) && context.nextBlock != file.data
    modifies context, context.h, context.nextBlock, file`pos
    ensures Fed(context, file, data, start, before)
    ensures read <= Min(limit, |data| - old(file.pos)) && file.pos == old(file.pos) + read
    ensures read == 0 <==> limit == 0 || old(file.pos) == |data|
  {
    ghost var here := file.pos;
    var chunk := file.Read(limit);
    context.Add(chunk);
    read := |chunk|;
    SliceStep(data, start, here, file.pos);
  }

  lemma SliceStep(s: seq<byte>, i: nat, j: nat, k: nat)
    requires i <= j <= k <= |s|
    ensures s[i..k] == s[i..j] + s[j..k]
  {
  }

  /** Feeds at most size bytes of the file to the digest, in reads of at most 256 bytes. */
  method DigestFile(context: Sha1Avr.Context, file: File, size: uint16) returns (length: nat)
    requires context.Valid()
    requires context.nextBlock != file.data && file.pos <= file.data.Length
    modifies context, context.h, context.nextBlock, file`pos
    ensures context.Valid()
    ensures length == Min(size, file.data.Length - old(file.pos))
    ensures file.pos == old(file.pos) + length
    ensures context.message == old(context.message) + file.data[old(file.pos)..file.pos]
  {
    length := 0;
    var remaining: nat := size;
    ghost var data, start, before := file.data[..], file.pos, context.message;
    assert before + data[start..start] == before;
    while remaining > 0
      invariant length + remaining == size && file.pos == start + length <= |data|
      invariant Fed(context, file, data, start, before)
    {
      var read := DigestSome(context, file, Min(remaining, BUFFER_SIZE), data, start, before);
      if read == 0 {
        break;
      }
      length := length + read;
      remaining := remaining - read;
    }
  }

  /** The value of an argument passed as an eight-bit parameter. */
  function Narrow(x: nat): uint8 {
    x % 0x100
  }

  class Store {
    const info: Info
    const file: File
    var ownHave: uint32

    /** The completed pieces. */
    ghost function Own(): set<nat>
      reads this
    {
      Bits(ownHave)
    }

    ghost function Bytes(): seq<byte>
      reads file, file.data
    {
      file.data[..]
    }

    ghost predicate Valid()
      reads this
    {
      info.Proper() && info.fileSize <= file.data.Length && Own() <= Below(info.NumPieces())
    }

    /** Starts on an existing file by verifying all of its pieces. */
    constructor (info: Info, file: File)
      requires info.Proper() && info.fileSize <= file.data.Length
      modifies file`pos
      ensures Valid() && this.info == info && this.file == file
      ensures VerifiedBelow(info, SHA1, Bytes(), info.NumPieces(), Own())
    {
      this.info := info;
      this.file := file;
      ownHave := 0;
      new;
      EmptyIffZero(0);
      var context := new Sha1Avr.Context();
      ownHave := VerifyAll(context);
    }

    method IsSeed() returns (r: bool)
      requires Valid()
      ensures r <==> Own() == Below(info.NumPieces())
    {
      r := Contains(ownHave, All(info.NumPieces()));
    }

    method IsComplete(i: nat) returns (r: bool)
      requires Valid()
      ensures r <==> i in Own()
    {
      if !info.IsValid(i) {
        return false;
      }
      r := Get(ownHave, i);
    }

    method SetComplete(i: nat, complete: bool)
      requires Valid()
      modifies this
      ensures Valid()
      ensures Own() == if !info.IsValid(i) then old(Own()) else if complete then old(Own()) + {i} else old(Own()) - {i}
    {
      if !info.IsValid(i) {
        return;
      }
      ownHave := if complete then Add(ownHave, i) else Clear(ownHave, i);
    }

    method CountComplete() returns (r: nat)
      requires Valid()
      ensures r == |Own()|
    {
      r := Count(ownHave);
    }

    /** Reads part of a piece; the offset parameter is only eight bits wide. */
    method Read(i: nat, dataOffset: uint16, limit: nat) returns (result: int, buffer: seq<byte>)
      requires Valid()
      modifies file`pos
      ensures var offset := Narrow(dataOffset);
              if !info.IsValid(i) || offset >= info.Size(i) then result == -1
              else
                && 0 <= result <= Min(limit, info.Size(i) - offset) && (result == 0 <==> limit == 0)
                && buffer == Piece(info, Bytes(), i)[offset..offset + result]
    {
      var offset := Narrow(dataOffset);
      var size := info.Size(i);
      if !info.IsValid(i) || offset >= size {
        return -1, [];
      }
      Abut(info, i);
      var start := info.Offset(i);
      file.Seek(start + offset);
      buffer := file.Read(Min(limit, size - offset));
      result := |buffer|;
      SliceOfSlice(Bytes(), start, size, offset, result);
    }

    /** Writes part of a piece, cutting off what lies beyond the end of the piece. */
    method Write(i: nat, dataOffset: uint16, buffer: seq<byte>) returns (result: int)
      requires Valid()
      modifies file`pos, file.data
      ensures result == WriteResult(info, i, dataOffset, |buffer|)
      ensures Bytes() == AfterWrite(info, old(Bytes()), i, dataOffset, buffer)
    {
      var offset := Narrow(dataOffset);
      var size := info.Size(i);
      if !info.IsValid(i) || offset >= size {
        return -1;
      }
      Abut(info, i);
      var n := Min(|buffer|, size - offset);
      ghost var before, start := Bytes(), info.Offset(i) + offset;
      file.Seek(info.Offset(i) + offset);
      file.Write(buffer[..n]);
      assert Bytes() == Overwrite(before, start, buffer[..n]);
      result := n;
    }

    /** Whether the stored bytes of a piece have the expected digest. */
    method Verify(context: Sha1Avr.Context, i: nat) returns (r: bool)
      requires Valid() && context.Allocated() && context.nextBlock != file.data
      modifies context, context.h, context.nextBlock, file`pos
      ensures context.Allocated()
      ensures r <==> info.IsValid(i) && Verified(info, SHA1, Bytes(), i)
    {
      if !info.IsValid(i) {
        return false;
      }
      DigestPiece(context, i);
      var digest := context.Result();
      r := digest == info.hashes[i];
    }

    /** Starts a fresh digest of the stored bytes of a piece. */
    method DigestPiece(context: Sha1Avr.Context, i: nat)
      requires Valid() && info.IsValid(i) && context.Allocated() && context.nextBlock != file.data
      modifies context, context.h, context.nextBlock, file`pos
      ensures context.Valid() && context.message == Piece(info, Bytes(), i)
    {
      Abut(info, i);
      file.Seek(info.Offset(i));
      context.Reset();
      var length := DigestFile(context, file, info.Size(i));
      assert length == info.Size(i);
    }

    method VerifyAll(context: Sha1Avr.Context) returns (result: uint32)
      requires Valid() && context.Allocated() && context.nextBlock != file.data
      modifies context, context.h, context.nextBlock, file`pos
      ensures VerifiedBelow(info, SHA1, Bytes(), info.NumPieces(), Bits(result))
    {
      result := 0;
      EmptyIffZero(0);
      for i := 0 to info.NumPieces()
        invariant context.Allocated()
        invariant VerifiedBelow(info, SHA1, Bytes(), i, Bits(result))
      {
        var ok := Verify(context, i);
        VerifiedNext(info, SHA1, Bytes(), i, Bits(result), ok);
        if ok {
          result := Add(result, i);
        }
      }
    }
  }

  /** done is the set of verified pieces among the first n. */
  ghost predicate VerifiedBelow(info: Info, digest: seq<byte> -> Sha1Digest, file: seq<byte>, n: nat, done: set<nat>)
    requires info.Proper() && info.fileSize <= |file| && n <= info.NumPieces()
  {
    forall k: nat :: k in done <==> k < n && Verified(info, digest, file, k)
  }

  lemma VerifiedNext(info: Info, digest: seq<byte> -> Sha1Digest, file: seq<byte>, n: nat, done: set<nat>, ok: bool)
    requires info.Proper() && info.fileSize <= |file| && n < info.NumPieces()
    requires VerifiedBelow(info, digest, file, n, done) && ok == Verified(info, digest, file, n)
    ensures if ok then VerifiedBelow(info, digest, file, n + 1, done + {n})
            else VerifiedBelow(info, digest, file, n + 1, done)
  {
    forall k: nat ensures k in done <==> k < n && Verified(info, digest, file, k) {
    }
  }

  lemma SliceOfSlice(file: seq<byte>, start: nat, size: nat, offset: nat, n: nat)
    requires start + size <= |file| && offset + n <= size
    ensures file[start..start + size][offset..offset + n] == file[start + offset..start + offset + n]
  {
    var a, b := file[start..start + size][offset..offset + n], file[start + offset..start + offset + n];
    assert forall p :: 0 <= p < n ==> a[p] == b[p];
  }

  /** How many bytes a write of the given length stores, or -1. */
  function WriteResult(info: Info, i: nat, dataOffset: nat, length: nat): int
    requires info.NumPieces() > 1 ==> info.pieceSize > 0
  {
    if !info.IsValid(i) || Narrow(dataOffset) >= info.Size(i) then -1
    else Min(length, info.Size(i) - Narrow(dataOffset))
  }

  ghost function Overwrite(file: seq<byte>, start: nat, chunk: seq<byte>): (r: seq<byte>)
    requires start + |chunk| <= |file|
    ensures |r| == |file|
  {
    file[..start] + chunk + file[start + |chunk|..]
  }

  /** The contents of the file after a write. */
  ghost function AfterWrite(info: Info, file: seq<byte>, i: nat, dataOffset: nat, buffer: seq<byte>): (r: seq<byte>)
    requires info.Proper() && info.fileSize <= |file|
    ensures |r| == |file|
  {
    var n := WriteResult(info, i, dataOffset, |buffer|);
    if n < 0 then file
    else
      Abut(info, i);
      Overwrite(file, info.Offset(i) + Narrow(dataOffset), buffer[..n])
  }

  lemma NarrowCases(start: nat)
    ensures Narrow(Narrow(start)) == Narrow(start)
    ensures if start < 0x100 then Narrow(start) == start else Narrow(start) + 0x100 <= start
  {
  }

  /** A write only looks at the narrowed offset. */
  lemma SameNarrow(info: Info, file: seq<byte>, i: nat, a: nat, b: nat, buffer: seq<byte>)
    requires info.Proper() && info.fileSize <= |file| && Narrow(a) == Narrow(b)
    ensures AfterWrite(info, file, i, a, buffer) == AfterWrite(info, file, i, b, buffer)
  {
    assert WriteResult(info, i, a, |buffer|) == WriteResult(info, i, b, |buffer|);
  }

  /** A write changes no byte of another piece. */
  lemma WriteStaysInside(info: Info, file: seq<byte>, i: nat, dataOffset: nat, buffer: seq<byte>, j: nat)
    requires info.Proper() && info.fileSize <= |file| && info.IsValid(j) && j != i
    ensures Piece(info, AfterWrite(info, file, i, dataOffset, buffer), j) == Piece(info, file, j)
  {
    var n := WriteResult(info, i, dataOffset, |buffer|);
    if n >= 0 {
      Abut(info, i);
      Abut(info, j);
      if i < j {
        Ordered(info, i, j);
      } else {
        Ordered(info, j, i);
      }
      OverwriteElsewhere(file, info.Offset(i) + Narrow(dataOffset), buffer[..n],
                         info.Offset(j), info.Offset(j) + info.Size(j));
    }
  }

  lemma OverwriteElsewhere(file: seq<byte>, start: nat, chunk: seq<byte>, from: nat, to: nat)
    requires start + |chunk| <= |file| && from <= to <= |file|
    requires to <= start || start + |chunk| <= from
    ensures Overwrite(file, start, chunk)[from..to] == file[from..to]
  {
    var a, b := Overwrite(file, start, chunk)[from..to], file[from..to];
    assert forall p :: 0 <= p < to - from ==> a[p] == b[p];
  }

  /** What a write leaves in its own piece. */
  lemma WriteLandsInside(info: Info, file: seq<byte>, i: nat, dataOffset: nat, buffer: seq<byte>)
    requires info.Proper() && info.fileSize <= |file| && info.IsValid(i)
    requires Narrow(dataOffset) < info.Size(i)
    ensures var n := WriteResult(info, i, dataOffset, |buffer|);
            Piece(info, AfterWrite(info, file, i, dataOffset, buffer), i)
            == Overwrite(Piece(info, file, i), Narrow(dataOffset), buffer[..n])
  {
    Abut(info, i);
    var n := WriteResult(info, i, dataOffset, |buffer|);
    OverwriteSlice(file, info.Offset(i), info.Size(i), Narrow(dataOffset), buffer[..n]);
  }

  lemma OverwriteSlice(file: seq<byte>, start: nat, size: nat, offset: nat, chunk: seq<byte>)
    requires start + size <= |file| && offset + |chunk| <= size
    ensures Overwrite(file, start + offset, chunk)[start..start + size]
         == Overwrite(file[start..start + size], offset, chunk)
  {
    var a := Overwrite(file, start + offset, chunk)[start..start + size];
    var b := Overwrite(file[start..start + size], offset, chunk);
    assert forall p :: 0 <= p < size ==> a[p] == b[p];
  }
}
