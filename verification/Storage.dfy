/** A file of the Contiki file system: a fixed-size byte array and a position.
    A read may return fewer bytes than asked for, but none only at the end of the file. */
module Storage {
  import opened Sha1

  class File {
    const data: array<byte>
    var pos: nat

    constructor (size: nat)
      ensures fresh(data) && data.Length == size && pos == 0
    {
      data := new byte[size](_ => 0);
      pos := 0;
    }

    method Seek(offset: nat)
      modifies this`pos
      ensures pos == offset
    {
      pos := offset;
    }

    method Read(limit: nat) returns (chunk: seq<byte>)
      modifies this`pos
      ensures |chunk| <= limit && (chunk == [] <==> limit == 0 || old(pos) >= data.Length)
      ensures pos == old(pos) + |chunk|
      ensures chunk != [] ==> pos <= data.Length && chunk == data[old(pos)..pos]
    {
      if limit == 0 || pos >= data.Length {
        return [];
      }
      var n :| 0 < n <= limit && pos + n <= data.Length;
      chunk := data[pos..pos + n];
      pos := pos + n;
    }

    /** Writes are complete; they stay inside the array. */
    method Write(chunk: seq<byte>)
      requires pos + |chunk| <= data.Length
      modifies this`pos, data
      ensures pos == old(pos) + |chunk|
      ensures data[..] == old(data[..pos]) + chunk + old(data[pos + |chunk|..])
    {
      forall i | 0 <= i < |chunk| {
        data[pos + i] := chunk[i];
      }
      pos := pos + |chunk|;
    }
  }
}
