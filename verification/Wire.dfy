/** How the messages a node handles lie in datagrams (peer/peer.c, peer/peer.h, peer/pack/pack-peer.c). */
module Wire {
  import opened Words
  import opened Sha1
  import opened PackBasic
  import opened PackPeer
  import opened PeerSpec

  /** A message that can be sent: a hash has 20 bytes, and an unknown kind is none of the known ones. */
  ghost predicate OnWire(m: Message<uint32>) {
    |m.header.infoHash| == HASH_BYTES && (m.Unknown? ==> m.kind > DATA_REPLY)
  }

  function KindOf(m: Message<uint32>): uint8 {
    match m
    case Close(_) => CLOSE
    case Have(_) => HAVE
    case DataRequest(_, _, _) => DATA_REQUEST
    case DataReply(_, _, _, _) => DATA_REPLY
    case Unknown(_, kind) => kind
  }

  ghost function HeaderOf(m: Message<uint32>): PeerHeader
    requires OnWire(m)
  {
    PeerHeader(KindOf(m), m.header.infoHash, m.header.have)
  }

  /** File bytes as the bytes of a datagram, and back. */
  function Raw(data: seq<byte>): (r: seq<uint8>)
    ensures |r| == |data|
  {
    seq(|data|, i requires 0 <= i < |data| => data[i] as nat)
  }

  function FromRaw(raw: seq<uint8>): (r: seq<byte>)
    ensures |r| == |raw|
  {
    seq(|raw|, i requires 0 <= i < |raw| => raw[i] as byte)
  }

  /** The bytes of a datagram. */
  ghost function Serialized(m: Message<uint32>): seq<uint8>
    requires OnWire(m)
  {
    match m
    case DataRequest(_, index, start) => DataBytes(PeerData(HeaderOf(m), index, start))
    case DataReply(_, index, start, data) => DataBytes(PeerData(HeaderOf(m), index, start)) + Raw(data)
    case _ => HeaderBytes(HeaderOf(m))
  }

  /** The handlers read a header, and a data header of a data message, without looking at the length. */
  predicate LongEnough(b: seq<uint8>) {
    |b| >= 25 && (b[0] == DATA_REQUEST || b[0] == DATA_REPLY ==> |b| >= 28)
  }

  /** What the handlers make of a datagram; the kind byte says where the header ends. */
  function Parsed(b: seq<uint8>): Message<uint32>
    requires LongEnough(b)
  {
    var header := Header(b[1..21], Number32(b[21], b[22], b[23], b[24]));
    if b[0] == CLOSE then Close(header)
    else if b[0] == HAVE then Have(header)
    else if b[0] == DATA_REQUEST then DataRequest(header, b[25], Number16(b[26], b[27]))
    else if b[0] == DATA_REPLY then DataReply(header, b[25], Number16(b[26], b[27]), FromRaw(b[28..]))
    else Unknown(header, b[0])
  }

  lemma RawBack(data: seq<byte>)
    ensures FromRaw(Raw(data)) == data
  {
    forall i | 0 <= i < |data| ensures FromRaw(Raw(data))[i] == data[i] {
      assert Raw(data)[i] == data[i] as nat;
    }
  }

  lemma BackRaw(raw: seq<uint8>)
    ensures Raw(FromRaw(raw)) == raw
  {
    forall i | 0 <= i < |raw| ensures Raw(FromRaw(raw))[i] == raw[i] {
      ByteBack(raw[i]);
    }
  }

  lemma HeaderParts(h: PeerHeader)
    ensures var b := HeaderBytes(h);
            b[0] == h.kind && b[1..21] == h.infoHash && Number32(b[21], b[22], b[23], b[24]) == h.have
  {
    var b := HeaderBytes(h);
    assert b[21..] == Uint32Bytes(h.have);
    assert b[21] == b[21..][0] && b[22] == b[21..][1] && b[23] == b[21..][2] && b[24] == b[21..][3];
    Digits(h.have);
  }

  lemma DataParts(d: PeerData, rest: seq<uint8>)
    ensures var b := DataBytes(d) + rest;
            && b[..25] == HeaderBytes(d.header) && b[25] == d.pieceIndex
            && Number16(b[26], b[27]) == d.dataStart && b[28..] == rest
  {
    var b := DataBytes(d) + rest;
    assert b[..28] == DataBytes(d);
    assert DataBytes(d)[26..] == Uint16Bytes(d.dataStart);
    assert b[26] == DataBytes(d)[26..][0] && b[27] == DataBytes(d)[26..][1];
  }

  /** Every message is read back from the datagram it is sent in. */
  lemma ParseSerialized(m: Message<uint32>)
    requires OnWire(m)
    ensures LongEnough(Serialized(m)) && Parsed(Serialized(m)) == m
  {
    var b, h := Serialized(m), HeaderOf(m);
    HeaderParts(h);
    if m.DataRequest? || m.DataReply? {
      var rest := if m.DataReply? then Raw(m.data) else [];
      var d := PeerData(h, m.index, m.start);
      assert b == DataBytes(d) + rest;
      DataParts(d, rest);
      assert b[1..21] == b[..25][1..21];
      assert b[0] == b[..25][0] && b[21] == b[..25][21] && b[22] == b[..25][22]
             && b[23] == b[..25][23] && b[24] == b[..25][24];
      if m.DataReply? {
        RawBack(m.data);
      }
    }
  }

  /** No longer than the handlers read. */
  predicate Exact(b: seq<uint8>) {
    && LongEnough(b)
    && (b[0] == DATA_REQUEST ==> |b| == 28) && (b[0] != DATA_REQUEST && b[0] != DATA_REPLY ==> |b| == 25)
  }

  lemma HeaderParsed(b: seq<uint8>, h: PeerHeader)
    requires |b| == 25 && h.kind == b[0] && h.infoHash == b[1..21] && h.have == Number32(b[21], b[22], b[23], b[24])
    ensures HeaderBytes(h) == b
  {
    Uint32Value(b[21], b[22], b[23], b[24]);
    assert b == [b[0]] + b[1..21] + [b[21], b[22], b[23], b[24]];
  }

  lemma DataParsed(b: seq<uint8>, d: PeerData)
    requires |b| == 28 && HeaderBytes(d.header) == b[..25]
    requires d.pieceIndex == b[25] && d.dataStart == Number16(b[26], b[27])
    ensures DataBytes(d) == b
  {
    Uint16Value(b[26], b[27]);
    assert b == b[..25] + [b[25]] + [b[26], b[27]];
  }

  /** And every datagram without trailing bytes is what its message is sent in. */
  lemma SerializeParsed(b: seq<uint8>)
    requires Exact(b)
    ensures OnWire(Parsed(b)) && Serialized(Parsed(b)) == b
  {
    var m := Parsed(b);
    assert KindOf(m) == b[0];
    HeaderParsed(b[..25], HeaderOf(m));
    if m.DataRequest? || m.DataReply? {
      DataParsed(b[..28], PeerData(HeaderOf(m), m.index, m.start));
    }
    if m.DataReply? {
      BackRaw(b[28..]);
      assert b == b[..28] + b[28..];
    }
  }

  /** The kinds have the codes 0 to 3; nothing else stands for them. */
  lemma KindCodes(m: Message<uint32>)
    requires OnWire(m)
    ensures var kind := Serialized(m)[0];
            && (m.Close? <==> kind == 0) && (m.Have? <==> kind == 1)
            && (m.DataRequest? <==> kind == 2) && (m.DataReply? <==> kind == 3)
  {
    HeaderParts(HeaderOf(m));
    if m.DataRequest? || m.DataReply? {
      DataLayout(PeerData(HeaderOf(m), m.index, m.start));
    }
  }

  /** Where the parts of a message lie in its datagram. */
  lemma MessageLayout(m: Message<uint32>, i: nat)
    requires OnWire(m)
    ensures var b := Serialized(m);
            && |b| == (if m.DataReply? then 28 + |m.data| else if m.DataRequest? then 28 else 25)
            && b[1..21] == m.header.infoHash && Number32(b[21], b[22], b[23], b[24]) == m.header.have
            && (m.DataRequest? || m.DataReply? ==> b[25] == m.index && Number16(b[26], b[27]) == m.start)
            && (m.DataReply? && i < |m.data| ==> b[28 + i] == m.data[i] as nat)
  {
    var b, h := Serialized(m), HeaderOf(m);
    if m.DataRequest? || m.DataReply? {
      var d := PeerData(h, m.index, m.start);
      DataLayout(d);
      assert b[..28] == DataBytes(d);
      forall j | 0 <= j < 28 ensures b[j] == DataBytes(d)[j] {
        assert b[j] == b[..28][j];
      }
      assert b[1..21] == DataBytes(d)[1..21];
    } else {
      HeaderParts(h);
    }
  }
}
