/** Packing of peer messages (peer/pack/pack-peer.c, peer/peer.h). */
module PackPeer {
  import opened Words
  import opened PackBasic

  const CLOSE: uint8 := 0
  const HAVE: uint8 := 1
  const DATA_REQUEST: uint8 := 2
  const DATA_REPLY: uint8 := 3

  datatype PeerHeader = PeerHeader(kind: uint8, infoHash: Hash, have: uint32)

  /** The header of a data request or a data reply. */
  datatype PeerData = PeerData(header: PeerHeader, pieceIndex: uint8, dataStart: uint16)

  function HeaderBytes(h: PeerHeader): (r: seq<uint8>)
    ensures |r| == 25
  {
    Uint8Bytes(h.kind) + h.infoHash + Uint32Bytes(h.have)
  }

  function DataBytes(d: PeerData): (r: seq<uint8>)
    ensures |r| == 28
  {
    HeaderBytes(d.header) + Uint8Bytes(d.pieceIndex) + Uint16Bytes(d.dataStart)
  }

  /** Where the fields of a header and a data header lie: kind, info hash, piece set; piece index and start. */
  lemma DataLayout(d: PeerData)
    ensures var b, h := DataBytes(d), d.header;
            && b[..25] == HeaderBytes(h) && b[0] == h.kind && b[1..21] == h.infoHash
            && Number32(b[21], b[22], b[23], b[24]) == h.have
            && b[25] == d.pieceIndex && Number16(b[26], b[27]) == d.dataStart
  {
    var b, h := DataBytes(d), d.header;
    assert b[21..25] == Uint32Bytes(h.have) && b[26..28] == Uint16Bytes(d.dataStart);
    assert b[21] == b[21..25][0] && b[22] == b[21..25][1] && b[23] == b[21..25][2] && b[24] == b[21..25][3];
    assert b[26] == b[26..28][0] && b[27] == b[26..28][1];
    Digits(h.have);
  }

  method PackHeader(buf: array<uint8>, pos: nat, h: PeerHeader) returns (end: nat)
    requires pos + 25 <= buf.Length
    modifies buf
    ensures end == pos + 25 && Wrote(old(buf[..]), buf[..], pos, HeaderBytes(h))
  {
    ghost var b0 := buf[..];
    end := PackUint8(buf, pos, h.kind);
    ghost var b1 := buf[..];
    end := PackBytes(buf, end, h.infoHash);
    ghost var b2 := buf[..];
    WroteBoth(b0, b1, b2, pos, Uint8Bytes(h.kind), h.infoHash);
    end := PackUint32(buf, end, h.have);
    WroteBoth(b0, b2, buf[..], pos, Uint8Bytes(h.kind) + h.infoHash, Uint32Bytes(h.have));
  }

  method UnpackHeader(buf: seq<uint8>, pos: nat) returns (h: PeerHeader, end: nat)
    requires pos + 25 <= |buf|
    ensures end == pos + 25 && Holds(buf, pos, HeaderBytes(h))
  {
    var kind, infoHash, have;
    kind, end := UnpackUint8(buf, pos);
    infoHash, end := UnpackBytes(buf, end, HASH_BYTES);
    have, end := UnpackUint32(buf, end);
    h := PeerHeader(kind, infoHash, have);
    HoldsBoth(buf, pos, Uint8Bytes(kind), infoHash);
    HoldsBoth(buf, pos, Uint8Bytes(kind) + infoHash, Uint32Bytes(have));
  }

  method PackData(buf: array<uint8>, pos: nat, d: PeerData) returns (end: nat)
    requires pos + 28 <= buf.Length
    modifies buf
    ensures end == pos + 28 && Wrote(old(buf[..]), buf[..], pos, DataBytes(d))
  {
    ghost var b0 := buf[..];
    end := PackHeader(buf, pos, d.header);
    ghost var b1 := buf[..];
    end := PackUint8(buf, end, d.pieceIndex);
    ghost var b2 := buf[..];
    WroteBoth(b0, b1, b2, pos, HeaderBytes(d.header), Uint8Bytes(d.pieceIndex));
    end := PackUint16(buf, end, d.dataStart);
    WroteBoth(b0, b2, buf[..], pos, HeaderBytes(d.header) + Uint8Bytes(d.pieceIndex), Uint16Bytes(d.dataStart));
  }

  method UnpackData(buf: seq<uint8>, pos: nat) returns (d: PeerData, end: nat)
    requires pos + 28 <= |buf|
    ensures end == pos + 28 && Holds(buf, pos, DataBytes(d))
  {
    var header, pieceIndex, dataStart;
    header, end := UnpackHeader(buf, pos);
    pieceIndex, end := UnpackUint8(buf, end);
    dataStart, end := UnpackUint16(buf, end);
    d := PeerData(header, pieceIndex, dataStart);
    HoldsBoth(buf, pos, HeaderBytes(header), Uint8Bytes(pieceIndex));
    HoldsBoth(buf, pos, HeaderBytes(header) + Uint8Bytes(pieceIndex), Uint16Bytes(dataStart));
  }

  /** Two headers with the same bytes are the same. */
  lemma HeaderUnique(a: PeerHeader, b: PeerHeader)
    requires HeaderBytes(a) == HeaderBytes(b)
    ensures a == b
  {
    var x, y := HeaderBytes(a), HeaderBytes(b);
    assert x[0] == a.kind && y[0] == b.kind;
    assert x[1..21] == a.infoHash && y[1..21] == b.infoHash;
    assert x[21..] == Uint32Bytes(a.have) && y[21..] == Uint32Bytes(b.have);
    Uint32Unique(a.have, b.have);
  }

  lemma DataUnique(a: PeerData, b: PeerData)
    requires DataBytes(a) == DataBytes(b)
    ensures a == b
  {
    var x, y := DataBytes(a), DataBytes(b);
    assert x[..25] == HeaderBytes(a.header) && y[..25] == HeaderBytes(b.header);
    assert x[25] == a.pieceIndex && y[25] == b.pieceIndex;
    assert x[26..] == Uint16Bytes(a.dataStart) && y[26..] == Uint16Bytes(b.dataStart);
    HeaderUnique(a.header, b.header);
    Uint16Unique(a.dataStart, b.dataStart);
  }

  /** Packing a data header anywhere in a buffer and unpacking it gives it back; the header alone reads the same. */
  method PackThenUnpack(buf: array<uint8>, pos: nat, d: PeerData) returns (header: PeerHeader, read: PeerData, end: nat)
    requires pos + 28 <= buf.Length
    modifies buf
    ensures read == d && header == d.header && end == pos + 28
    ensures buf[..pos] == old(buf[..pos]) && buf[end..] == old(buf[end..])
  {
    ghost var before := buf[..];
    var packedEnd := PackData(buf, pos, d);
    WroteHolds(before, buf[..], pos, DataBytes(d));
    HoldsBoth(buf[..], pos, HeaderBytes(d.header) + Uint8Bytes(d.pieceIndex), Uint16Bytes(d.dataStart));
    HoldsBoth(buf[..], pos, HeaderBytes(d.header), Uint8Bytes(d.pieceIndex));
    var headerEnd;
    header, headerEnd := UnpackHeader(buf[..], pos);
    HeaderUnique(header, d.header);
    read, end := UnpackData(buf[..], pos);
    DataUnique(read, d);
  }
}
