/** Torrent info and the geometry of its pieces (peer/torrent.h, peer/piece.c). */
module Torrent {
  import opened Arithmetic
  import opened Words
  import opened Sha1

  const MAX_PIECES: nat := 32

  /** The sizes are 16-bit fields; num_pieces is the number of hashes. */
  datatype Info = Info(fileSize: uint16, pieceSize: uint16, hashes: seq<Sha1Digest>) {

    function NumPieces(): nat {
      |hashes|
    }

    predicate IsValid(i: nat) {
      i < NumPieces()
    }

    /** The 16-bit product; zero for an invalid index. */
    function Offset(i: nat): uint16 {
      if !IsValid(i) then 0 else (i * pieceSize) % 0x1_0000
    }

    /** The last piece may be shorter than the others, but only a lone piece may be empty. */
    function Size(i: nat): uint16
      requires NumPieces() > 1 ==> pieceSize > 0
    {
      if !IsValid(i) then 0
      else if i == NumPieces() - 1 then
        if i == 0 then fileSize
        else
          var remainder := fileSize % pieceSize;
          if remainder == 0 then pieceSize else remainder
      else pieceSize
    }

    /** What creation produces: enough pieces to cover the file, at most 31 of them. */
    ghost predicate Proper() {
      && 0 < pieceSize
      && 1 <= NumPieces() < MAX_PIECES
      && NumPieces() == PieceCount(fileSize, pieceSize)
    }
  }

  /** max(1, ceil(length / pieceSize)) */
  function PieceCount(length: nat, pieceSize: nat): (r: nat)
    requires pieceSize > 0
    ensures r >= 1
  {
    if length == 0 then 1 else (length - 1) / pieceSize + 1
  }

  /** The pieces before the last fill the file up to somewhere inside the last one. */
  lemma CountBounds(length: nat, pieceSize: nat)
    requires pieceSize > 0
    ensures var n := PieceCount(length, pieceSize);
            (n - 1) * pieceSize <= length <= n * pieceSize && (length > 0 ==> (n - 1) * pieceSize < length)
  {
    if length > 0 {
      var n := (length - 1) / pieceSize;
      DivBounds(length - 1, pieceSize);
      MulDistributes(n, pieceSize);
    }
  }

  lemma CountUnique(length: nat, pieceSize: nat, n: nat)
    requires pieceSize > 0 && n > 0
    requires (n - 1) * pieceSize < length <= n * pieceSize || (length == 0 && n == 1)
    ensures n == PieceCount(length, pieceSize)
  {
    CountBounds(length, pieceSize);
    var m := PieceCount(length, pieceSize);
    if m < n {
      MulMono(m, n - 1, pieceSize);
    } else if n < m {
      MulMono(n, m - 1, pieceSize);
    }
  }

  /** No offset of a proper torrent wraps. */
  lemma OffsetExact(info: Info, i: nat)
    requires info.Proper() && info.IsValid(i)
    ensures info.Offset(i) == i * info.pieceSize <= info.fileSize
  {
    CountBounds(info.fileSize, info.pieceSize);
    MulMono(i, info.NumPieces() - 1, info.pieceSize);
    assert i * info.pieceSize < 0x1_0000;
  }

  /** Consecutive pieces abut, and the last one ends the file. */
  lemma Abut(info: Info, i: nat)
    requires info.Proper() && info.IsValid(i)
    ensures info.Offset(i) + info.Size(i)
         == if i + 1 < info.NumPieces() then info.Offset(i + 1) else info.fileSize
    ensures info.Offset(i) + info.Size(i) <= info.fileSize
    ensures info.fileSize > 0 ==> info.Size(i) > 0
    ensures info.NumPieces() > 1 ==> info.Size(i) <= info.pieceSize
  {
    OffsetExact(info, i);
    MulDistributes(i, info.pieceSize);
    if i + 1 < info.NumPieces() {
      OffsetExact(info, i + 1);
    } else if i > 0 {
      LastSize(info.fileSize, info.pieceSize, i);
    }
  }

  lemma LastSize(length: nat, pieceSize: nat, i: nat)
    requires pieceSize > 0 && i > 0 && i + 1 == PieceCount(length, pieceSize)
    ensures length - i * pieceSize == if length % pieceSize == 0 then pieceSize else length % pieceSize
  {
    CountBounds(length, pieceSize);
    MulDistributes(i, pieceSize);
    var r := length - i * pieceSize;
    assert 0 < r <= pieceSize;
    ModOfSum(i, pieceSize, r);
  }

  lemma ModOfSum(q: nat, d: nat, r: nat)
    requires d > 0 && 0 < r <= d
    ensures (q * d + r) % d == if r == d then 0 else r
  {
    var n := q * d + r;
    DivBounds(n, d);
    if r == d {
      MulDistributes(q, d);
      Quotient(n, d, q + 1, 0);
    } else {
      Quotient(n, d, q, r);
    }
  }

  /** The total size of the first n pieces. */
  ghost function TotalSize(info: Info, n: nat): nat
    requires info.Proper() && n <= info.NumPieces()
  {
    if n == 0 then 0 else TotalSize(info, n - 1) + info.Size(n - 1)
  }

  /** The sizes of all pieces add up to the file size, and of the first n to the next offset. */
  lemma {:induction false} SizesAddUp(info: Info, n: nat)
    requires info.Proper() && n <= info.NumPieces()
    ensures TotalSize(info, n) == if n < info.NumPieces() then info.Offset(n) else info.fileSize
  {
    if n == 0 {
      OffsetExact(info, 0);
    } else {
      SizesAddUp(info, n - 1);
      Abut(info, n - 1);
    }
  }

  ghost predicate LiesIn(info: Info, i: nat, position: nat)
    requires info.Proper()
  {
    info.IsValid(i) && info.Offset(i) <= position < info.Offset(i) + info.Size(i)
  }

  /** Pieces in order do not overlap. */
  lemma Ordered(info: Info, i: nat, j: nat)
    requires info.Proper() && i < j && info.IsValid(j)
    ensures info.Offset(i) + info.Size(i) <= info.Offset(j)
  {
    Abut(info, i);
    OffsetExact(info, i + 1);
    OffsetExact(info, j);
    MulMono(i + 1, j, info.pieceSize);
  }

  lemma SomePiece(info: Info, position: nat) returns (i: nat)
    requires info.Proper() && position < info.fileSize
    ensures LiesIn(info, i, position)
  {
    i := position / info.pieceSize;
    var n := info.NumPieces();
    DivBounds(position, info.pieceSize);
    CountBounds(info.fileSize, info.pieceSize);
    if i >= n {
      MulMono(n, i, info.pieceSize);
    }
    OffsetExact(info, i);
    Abut(info, i);
    if i + 1 < n {
      OffsetExact(info, i + 1);
      MulDistributes(i, info.pieceSize);
    }
  }

  /** The pieces tile the file: every byte lies in exactly one piece. */
  lemma Tile(info: Info, position: nat)
    requires info.Proper() && position < info.fileSize
    ensures exists i :: LiesIn(info, i, position)
    ensures forall i, j :: LiesIn(info, i, position) && LiesIn(info, j, position) ==> i == j
  {
    var _ := SomePiece(info, position);
    forall i, j | LiesIn(info, i, position) && LiesIn(info, j, position) ensures i == j {
      if i < j {
        Ordered(info, i, j);
      } else if j < i {
        Ordered(info, j, i);
      }
    }
  }

  /** The bytes of piece i in a stored file. */
  ghost function Piece(info: Info, file: seq<byte>, i: nat): (r: seq<byte>)
    requires info.Proper() && info.IsValid(i) && info.fileSize <= |file|
    ensures |r| == info.Size(i)
  {
    Abut(info, i);
    file[info.Offset(i)..info.Offset(i) + info.Size(i)]
  }

  /** Whether the stored bytes of piece i have the expected digest. */
  ghost predicate Verified(info: Info, digest: seq<byte> -> Sha1Digest, file: seq<byte>, i: nat)
    requires info.Proper() && info.IsValid(i) && info.fileSize <= |file|
  {
    digest(Piece(info, file, i)) == info.hashes[i]
  }
}
