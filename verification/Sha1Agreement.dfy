/** The two implementations of SHA-1 compute the same digest, however the message is cut into pieces. */
module Sha1Agreement {
  import opened Sha1
  import Sha1Avr
  import Sha1Ref

  ghost function Concat(pieces: seq<seq<byte>>): seq<byte> {
    if pieces == [] then [] else Concat(pieces[..|pieces| - 1]) + pieces[|pieces| - 1]
  }

  lemma ConcatStep(pieces: seq<seq<byte>>, i: nat)
    requires i < |pieces|
    ensures Concat(pieces[..i + 1]) == Concat(pieces[..i]) + pieces[i]
  {
    assert pieces[..i + 1][..i] == pieces[..i];
  }

  lemma {:induction false} ConcatBound(pieces: seq<seq<byte>>, i: nat)
    requires i <= |pieces|
    ensures |Concat(pieces[..i])| <= |Concat(pieces)|
    decreases |pieces| - i
  {
    if i == |pieces| {
      assert pieces[..i] == pieces;
    } else {
      ConcatStep(pieces, i);
      ConcatBound(pieces, i + 1);
    }
  }

  /** The AVR digest of a message handed over in pieces. */
  method AvrDigest(pieces: seq<seq<byte>>) returns (digest: Sha1Digest)
    ensures digest == Digest(Concat(pieces))
  {
    var context := new Sha1Avr.Context();
    context.Reset();
    for i := 0 to |pieces|
      invariant fresh(context) && fresh(context.h) && fresh(context.nextBlock)
      invariant context.Valid() && context.message == Concat(pieces[..i])
    {
      ConcatStep(pieces, i);
      context.Add(pieces[i]);
    }
    assert pieces[..|pieces|] == pieces;
    digest := context.Result();
  }

  /** The reference digest of a message handed over in pieces. */
  method RefDigest(pieces: seq<seq<byte>>) returns (digest: Sha1Digest)
    requires 8 * |Concat(pieces)| < WRAP64
    ensures digest == Digest(Concat(pieces))
  {
    var context := new Sha1Ref.Context();
    context.Reset();
    for i := 0 to |pieces|
      invariant fresh(context) && fresh(context.intermediateHash) && fresh(context.messageBlock)
      invariant context.Valid() && !context.computed && context.corrupted == Sha1Ref.SUCCESS
      invariant context.message == Concat(pieces[..i])
    {
      ConcatStep(pieces, i);
      ConcatBound(pieces, i + 1);
      var _ := context.Input(pieces[i]);
    }
    assert pieces[..|pieces|] == pieces;
    var code;
    code, digest := context.Result();
  }

  /** Two cuts of one message, one digest. */
  method Agree(avrPieces: seq<seq<byte>>, refPieces: seq<seq<byte>>) returns (avr: Sha1Digest, ref: Sha1Digest)
    requires Concat(avrPieces) == Concat(refPieces) && 8 * |Concat(refPieces)| < WRAP64
    ensures avr == ref == Digest(Concat(avrPieces))
  {
    avr := AvrDigest(avrPieces);
    ref := RefDigest(refPieces);
  }
}
