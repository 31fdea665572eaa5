/** Packing of torrent info and descriptors (peer/pack/pack-torrent.c). */
module PackTorrent {
  import opened Common
  import opened Words
  import opened PackBasic
  import opened Torrent

  datatype Desc = Desc(trackerIp: IpAddress, trackerPort: uint16, info: Info)

  /** What fits the descriptor's array of 32 hashes. */
  predicate Fits(info: Info) {
    |info.hashes| <= MAX_PIECES && forall h :: h in info.hashes ==> |h| == HASH_BYTES
  }

  function HashesBytes(hashes: seq<seq<uint8>>): seq<uint8> {
    if hashes == [] then [] else HashesBytes(hashes[..|hashes| - 1]) + hashes[|hashes| - 1]
  }

  /** The sizes and the number of pieces. */
  function InfoHead(fileSize: uint16, pieceSize: uint16, count: uint8): (r: seq<uint8>)
    ensures |r| == 5
  {
    Uint16Bytes(fileSize) + Uint16Bytes(pieceSize) + Uint8Bytes(count)
  }

  function InfoBytes(info: Info): seq<uint8>
    requires Fits(info)
  {
    InfoHead(info.fileSize, info.pieceSize, |info.hashes|) + HashesBytes(info.hashes)
  }

  function DescBytes(desc: Desc): seq<uint8>
    requires Fits(desc.info)
  {
    desc.trackerIp + Uint16Bytes(desc.trackerPort) + InfoBytes(desc.info)
  }

  lemma {:induction false} HashesLength(hashes: seq<seq<uint8>>)
    requires forall h :: h in hashes ==> |h| == HASH_BYTES
    ensures |HashesBytes(hashes)| == HASH_BYTES * |hashes|
  {
    if hashes != [] {
      HashesLength(hashes[..|hashes| - 1]);
    }
  }

  /** The packed length of a descriptor. */
  lemma DescLength(desc: Desc)
    requires Fits(desc.info)
    ensures |DescBytes(desc)| == 23 + 20 * |desc.info.hashes|
  {
    HashesLength(desc.info.hashes);
  }

  /** Where the fields of a descriptor lie: tracker address and port, file and piece size, number of pieces, hashes. */
  lemma DescLayout(desc: Desc, i: nat)
    requires Fits(desc.info)
    ensures var b := DescBytes(desc);
            && |b| == 23 + 20 * |desc.info.hashes|
            && b[..16] == desc.trackerIp && Number16(b[16], b[17]) == desc.trackerPort
            && Number16(b[18], b[19]) == desc.info.fileSize && Number16(b[20], b[21]) == desc.info.pieceSize
            && b[22] == |desc.info.hashes|
            && (i < |desc.info.hashes| ==> b[23 + 20 * i..43 + 20 * i] == desc.info.hashes[i])
  {
    DescLength(desc);
    var b, info := DescBytes(desc), desc.info;
    var head := InfoHead(info.fileSize, info.pieceSize, |info.hashes|);
    assert b[16..18] == Uint16Bytes(desc.trackerPort) && b[18..23] == head && b[23..] == HashesBytes(info.hashes);
    assert b[16] == b[16..18][0] && b[17] == b[16..18][1];
    assert b[18] == head[0] && b[19] == head[1] && b[20] == head[2] && b[21] == head[3] && b[22] == head[4];
    if i < |info.hashes| {
      HashAt(info.hashes, i);
      assert b[23 + 20 * i..43 + 20 * i] == b[23..][20 * i..20 * i + 20];
    }
  }

  lemma {:induction false} HashAt(hashes: seq<seq<uint8>>, i: nat)
    requires i < |hashes| && forall h :: h in hashes ==> |h| == HASH_BYTES
    ensures |HashesBytes(hashes)| == 20 * |hashes| && HashesBytes(hashes)[20 * i..20 * i + 20] == hashes[i]
  {
    var n := |hashes| - 1;
    HashesLength(hashes);
    HashesLength(hashes[..n]);
    var before := HashesBytes(hashes[..n]);
    assert HashesBytes(hashes) == before + hashes[n];
    if i < n {
      HashAt(hashes[..n], i);
      assert (before + hashes[n])[20 * i..20 * i + 20] == before[20 * i..20 * i + 20];
    } else {
      assert (before + hashes[n])[20 * n..20 * n + 20] == hashes[n];
    }
  }

  lemma HashesStep(hashes: seq<seq<uint8>>, i: nat)
    requires i < |hashes|
    ensures HashesBytes(hashes[..i + 1]) == HashesBytes(hashes[..i]) + hashes[i]
  {
    assert hashes[..i + 1][..i] == hashes[..i];
  }

  method PackHashes(buf: array<uint8>, pos: nat, hashes: seq<seq<uint8>>) returns (end: nat)
    requires (forall h :: h in hashes ==> |h| == HASH_BYTES) && pos + HASH_BYTES * |hashes| <= buf.Length
    modifies buf
    ensures end == pos + |HashesBytes(hashes)| && Wrote(old(buf[..]), buf[..], pos, HashesBytes(hashes))
  {
    ghost var start := buf[..];
    end := pos;
    WroteNothing(start, pos);
    for i := 0 to |hashes|
      invariant end == pos + HASH_BYTES * i == pos + |HashesBytes(hashes[..i])|
      invariant Wrote(start, buf[..], pos, HashesBytes(hashes[..i]))
    {
      HashesStep(hashes, i);
      ghost var before := buf[..];
      end := PackBytes(buf, end, hashes[i]);
      WroteBoth(start, before, buf[..], pos, HashesBytes(hashes[..i]), hashes[i]);
    }
    assert hashes[..|hashes|] == hashes;
  }

  method PackHead(buf: array<uint8>, pos: nat, info: Info) returns (end: nat)
    requires Fits(info) && pos + 5 <= buf.Length
    modifies buf
    ensures end == pos + 5
    ensures Wrote(old(buf[..]), buf[..], pos, InfoHead(info.fileSize, info.pieceSize, |info.hashes|))
  {
    ghost var b0 := buf[..];
    end := PackUint16(buf, pos, info.fileSize);
    ghost var b1 := buf[..];
    end := PackUint16(buf, end, info.pieceSize);
    ghost var b2 := buf[..];
    WroteBoth(b0, b1, b2, pos, Uint16Bytes(info.fileSize), Uint16Bytes(info.pieceSize));
    end := PackUint8(buf, end, |info.hashes|);
    WroteBoth(b0, b2, buf[..], pos, Uint16Bytes(info.fileSize) + Uint16Bytes(info.pieceSize),
              Uint8Bytes(|info.hashes|));
  }

  method PackInfo(buf: array<uint8>, pos: nat, info: Info) returns (end: nat)
    requires Fits(info) && pos + |InfoBytes(info)| <= buf.Length
    modifies buf
    ensures end == pos + |InfoBytes(info)| && Wrote(old(buf[..]), buf[..], pos, InfoBytes(info))
  {
    HashesLength(info.hashes);
    ghost var b0 := buf[..];
    end := PackHead(buf, pos, info);
    ghost var b1 := buf[..];
    end := PackHashes(buf, end, info.hashes);
    WroteBoth(b0, b1, buf[..], pos, InfoHead(info.fileSize, info.pieceSize, |info.hashes|), HashesBytes(info.hashes));
  }

  method PackDesc(buf: array<uint8>, pos: nat, desc: Desc) returns (end: nat)
    requires Fits(desc.info) && pos + |DescBytes(desc)| <= buf.Length
    modifies buf
    ensures end == pos + |DescBytes(desc)| && Wrote(old(buf[..]), buf[..], pos, DescBytes(desc))
  {
    ghost var b0 := buf[..];
    end := PackBytes(buf, pos, desc.trackerIp);
    ghost var b1 := buf[..];
    end := PackUint16(buf, end, desc.trackerPort);
    ghost var b2 := buf[..];
    WroteBoth(b0, b1, b2, pos, desc.trackerIp, Uint16Bytes(desc.trackerPort));
    end := PackInfo(buf, end, desc.info);
    WroteBoth(b0, b2, buf[..], pos, desc.trackerIp + Uint16Bytes(desc.trackerPort), InfoBytes(desc.info));
  }

  method UnpackHashes(buf: seq<uint8>, pos: nat, count: nat) returns (hashes: seq<seq<uint8>>, end: nat)
    requires pos + HASH_BYTES * count <= |buf|
    ensures |hashes| == count && (forall h :: h in hashes ==> |h| == HASH_BYTES)
    ensures end == pos + HASH_BYTES * count && Holds(buf, pos, HashesBytes(hashes))
  {
    hashes, end := [], pos;
    for i := 0 to count
      invariant |hashes| == i && (forall h :: h in hashes ==> |h| == HASH_BYTES)
      invariant end == pos + HASH_BYTES * i && |HashesBytes(hashes)| == HASH_BYTES * i
      invariant Holds(buf, pos, HashesBytes(hashes))
    {
      var hash;
      hash, end := UnpackBytes(buf, end, HASH_BYTES);
      HoldsBoth(buf, pos, HashesBytes(hashes), hash);
      assert (hashes + [hash])[..i] == hashes;
      hashes := hashes + [hash];
    }
  }

  /** Reads torrent info; a piece count above 32 is cut down to 32. */
  method UnpackInfo(buf: seq<uint8>, pos: nat) returns (info: Info, end: nat)
    requires pos + 5 <= |buf| && pos + 5 + HASH_BYTES * Min(buf[pos + 4], MAX_PIECES) <= |buf|
    ensures Fits(info) && |info.hashes| == Min(buf[pos + 4], MAX_PIECES)
    ensures end == pos + |InfoBytes(info)|
    ensures Holds(buf, pos, InfoHead(info.fileSize, info.pieceSize, buf[pos + 4]))
    ensures Holds(buf, pos + 5, HashesBytes(info.hashes))
    ensures Holds(buf, pos, InfoBytes(info)) <==> buf[pos + 4] <= MAX_PIECES
  {
    var fileSize, pieceSize, count;
    fileSize, end := UnpackUint16(buf, pos);
    pieceSize, end := UnpackUint16(buf, end);
    count, end := UnpackUint8(buf, end);
    HoldsBoth(buf, pos, Uint16Bytes(fileSize), Uint16Bytes(pieceSize));
    HoldsBoth(buf, pos, Uint16Bytes(fileSize) + Uint16Bytes(pieceSize), Uint8Bytes(count));
    assert buf[pos + 4..pos + 5] == Uint8Bytes(count);
    assert count == buf[pos + 4];
    var hashes;
    hashes, end := UnpackHashes(buf, end, Min(count, MAX_PIECES));
    info := Info(fileSize, pieceSize, hashes);
    HashesLength(hashes);
    HoldsBoth(buf, pos, InfoHead(fileSize, pieceSize, |hashes|), HashesBytes(hashes));
    if Holds(buf, pos, InfoHead(fileSize, pieceSize, |hashes|)) {
      assert InfoHead(fileSize, pieceSize, |hashes|)[4] == |hashes|;
    }
  }

  method UnpackDesc(buf: seq<uint8>, pos: nat) returns (desc: Desc, end: nat)
    requires pos + 23 <= |buf| && pos + 23 + HASH_BYTES * Min(buf[pos + 22], MAX_PIECES) <= |buf|
    ensures Fits(desc.info) && end == pos + |DescBytes(desc)|
    ensures |desc.info.hashes| == Min(buf[pos + 22], MAX_PIECES)
    ensures Holds(buf, pos, desc.trackerIp + Uint16Bytes(desc.trackerPort))
    ensures Holds(buf, pos + 18, InfoHead(desc.info.fileSize, desc.info.pieceSize, buf[pos + 22]))
    ensures Holds(buf, pos + 23, HashesBytes(desc.info.hashes))
    ensures Holds(buf, pos, DescBytes(desc)) <==> buf[pos + 22] <= MAX_PIECES
  {
    var ip, port, info;
    ip, end := UnpackBytes(buf, pos, ADDRESS_BYTES);
    port, end := UnpackUint16(buf, end);
    info, end := UnpackInfo(buf, end);
    desc := Desc(ip, port, info);
    HoldsBoth(buf, pos, ip, Uint16Bytes(port));
    HoldsBoth(buf, pos, ip + Uint16Bytes(port), InfoBytes(info));
  }

  // ------------------------------------------------------------------
  // Reading back

  lemma {:induction false} HashesUnique(a: seq<seq<uint8>>, b: seq<seq<uint8>>)
    requires |a| == |b| && HashesBytes(a) == HashesBytes(b)
    requires (forall h :: h in a ==> |h| == HASH_BYTES) && (forall h :: h in b ==> |h| == HASH_BYTES)
    ensures a == b
  {
    if a != [] {
      var n := |a| - 1;
      HashesLength(a[..n]);
      HashesLength(b[..n]);
      assert HashesBytes(a)[..20 * n] == HashesBytes(a[..n]) && HashesBytes(b)[..20 * n] == HashesBytes(b[..n]);
      assert HashesBytes(a)[20 * n..] == a[n] && HashesBytes(b)[20 * n..] == b[n];
      HashesUnique(a[..n], b[..n]);
      assert a == a[..n] + [a[n]] && b == b[..n] + [b[n]];
    }
  }

  /** Two descriptors found at the same position are the same. */
  lemma DescUnique(buf: seq<uint8>, pos: nat, a: Desc, b: Desc)
    requires Fits(a.info) && Fits(b.info) && Holds(buf, pos, DescBytes(a)) && Holds(buf, pos, DescBytes(b))
    ensures a == b
  {
    HoldsBoth(buf, pos, a.trackerIp + Uint16Bytes(a.trackerPort), InfoBytes(a.info));
    HoldsBoth(buf, pos, b.trackerIp + Uint16Bytes(b.trackerPort), InfoBytes(b.info));
    HoldsBoth(buf, pos, a.trackerIp, Uint16Bytes(a.trackerPort));
    HoldsBoth(buf, pos, b.trackerIp, Uint16Bytes(b.trackerPort));
    Uint16Unique(a.trackerPort, b.trackerPort);
    InfoUnique(buf, pos + 18, a.info, b.info);
  }

  lemma HeadUnique(buf: seq<uint8>, pos: nat, f: uint16, p: uint16, n: uint8, f': uint16, p': uint16, n': uint8)
    requires Holds(buf, pos, InfoHead(f, p, n)) && Holds(buf, pos, InfoHead(f', p', n'))
    ensures f == f' && p == p' && n == n'
  {
    var a, b := InfoHead(f, p, n), InfoHead(f', p', n');
    assert a == b;
    assert a[..2] == Uint16Bytes(f) && b[..2] == Uint16Bytes(f');
    assert a[2..4] == Uint16Bytes(p) && b[2..4] == Uint16Bytes(p');
    assert a[4] == n && b[4] == n';
    Uint16Unique(f, f');
    Uint16Unique(p, p');
  }

  lemma InfoUnique(buf: seq<uint8>, pos: nat, a: Info, b: Info)
    requires Fits(a) && Fits(b) && Holds(buf, pos, InfoBytes(a)) && Holds(buf, pos, InfoBytes(b))
    ensures a == b
  {
    HoldsBoth(buf, pos, InfoHead(a.fileSize, a.pieceSize, |a.hashes|), HashesBytes(a.hashes));
    HoldsBoth(buf, pos, InfoHead(b.fileSize, b.pieceSize, |b.hashes|), HashesBytes(b.hashes));
    HeadUnique(buf, pos, a.fileSize, a.pieceSize, |a.hashes|, b.fileSize, b.pieceSize, |b.hashes|);
    HashesLength(a.hashes);
    HashesLength(b.hashes);
    HashesUnique(a.hashes, b.hashes);
  }

  /** Packing a descriptor anywhere in a buffer and unpacking it gives it back, with the same end. */
  method PackThenUnpack(buf: array<uint8>, pos: nat, desc: Desc) returns (packedEnd: nat, read: Desc, readEnd: nat)
    requires Fits(desc.info) && pos + |DescBytes(desc)| <= buf.Length
    modifies buf
    ensures read == desc && readEnd == packedEnd == pos + 23 + 20 * |desc.info.hashes| <= buf.Length
    ensures buf[..pos] == old(buf[..pos]) && buf[packedEnd..] == old(buf[packedEnd..])
  {
    DescLength(desc);
    ghost var before := buf[..];
    packedEnd := PackDesc(buf, pos, desc);
    WroteHolds(before, buf[..], pos, DescBytes(desc));
    CountByte(buf[..], pos, desc);
    read, readEnd := UnpackDesc(buf[..], pos);
    DescUnique(buf[..], pos, desc, read);
  }

  lemma CountByte(buf: seq<uint8>, pos: nat, desc: Desc)
    requires Fits(desc.info) && Holds(buf, pos, DescBytes(desc))
    ensures pos + 23 <= |buf| && buf[pos + 22] == |desc.info.hashes|
  {
    DescLength(desc);
    var bytes := DescBytes(desc);
    assert bytes[22] == InfoHead(desc.info.fileSize, desc.info.pieceSize, |desc.info.hashes|)[4];
    assert buf[pos + 22] == buf[pos..pos + |bytes|][22];
  }
}
