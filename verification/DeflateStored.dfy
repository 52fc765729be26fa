/** The simplest DEFLATE encoder, stored blocks alone (section 3.2.4 of RFC 1951): whatever bytes
    it encodes, the decoder returns. */
module DeflateStored {
  import opened Bits
  import opened BitStream
  import opened Deflate
  import Inflating

  const MAX_STORED: nat := 65535

  function Field16(n: nat): (s: seq<byte>)
    requires n <= MAX_STORED
    ensures |s| == 2
  {
    [n % 256, n / 256]
  }

  /** A stored block at a byte boundary. */
  function StoredBlock(final: bool, bytes: seq<byte>): (s: seq<byte>)
    requires |bytes| <= MAX_STORED
    ensures |s| == 5 + |bytes|
  {
    [if final then 1 else 0] + Field16(|bytes|) + Field16(MAX_STORED - |bytes|) + bytes
  }

  /** As many blocks as the bytes need. */
  function Encode(bytes: seq<byte>): seq<byte>
    decreases |bytes|
  {
    if |bytes| <= MAX_STORED then StoredBlock(true, bytes)
    else StoredBlock(false, bytes[..MAX_STORED]) + Encode(bytes[MAX_STORED..])
  }

  /** The bits of a block's first byte. */
  lemma HeaderBits(data: seq<byte>, k: nat)
    requires k < |data| && data[k] <= 1
    ensures LE(data, 8 * k, 1) == data[k] && LE(data, 8 * k + 1, 2) == 0
  {
    hide LE, Shl, Pow2;
    LEByte(data, k);
    LESplit(data, 8 * k, 1, 7);
    LESplit(data, 8 * k + 1, 2, 5);
    LEBound(data, 8 * k, 1);
    Pow2Values();
    ShlTwice(LE(data, 8 * k + 1, 7));
  }

  lemma ShlTwice(x: nat)
    ensures Shl(x, 1) == 2 * x
  {
  }

  lemma Bits16(data: seq<byte>, k: nat)
    requires k + 1 < |data|
    ensures LE(data, 8 * k, 16) == data[k] + 256 * (data[k + 1] as int)
  {
    hide LE, Shl;
    LESplit(data, 8 * k, 8, 8);
    LEByte(data, k);
    LEByte(data, k + 1);
    ShlByte(data[k + 1]);
  }

  /** One stored block, wherever it stands in the data. */
  lemma BlockRead(data: seq<byte>, k: nat, final: bool, bytes: seq<byte>, out: seq<byte>)
    requires |bytes| <= MAX_STORED && k + 5 + |bytes| <= |data|
    requires data[k..k + 5 + |bytes|] == StoredBlock(final, bytes)
    ensures LE(data, 8 * k, 1) == (if final then 1 else 0) && LE(data, 8 * k + 1, 2) == 0
    ensures Stored(data, 8 * |data|, 8 * k + 3, out) == Done(out + bytes, 8 * (k + 5 + |bytes|))
  {
    hide LE;
    var n, block := |bytes|, StoredBlock(final, bytes);
    assert forall i :: 0 <= i < 5 + n ==> data[k + i] == block[i];
    assert data[k + 1] == n % 256 && data[k + 2] == n / 256;
    assert data[k + 3] == (MAX_STORED - n) % 256 && data[k + 4] == (MAX_STORED - n) / 256;
    HeaderBits(data, k);
    Bits16(data, k + 1);
    Bits16(data, k + 3);
    assert AlignUp(8 * k + 3) == 8 * (k + 1);
    assert block[5..] == bytes;
    assert data[k + 5..k + 5 + n] == data[k..k + 5 + n][5..];
    if n == 0 { assert out + bytes == out; }
  }

  /** The reference reads an encoding back from any byte boundary. */
  lemma {:induction false} EncodedReads(data: seq<byte>, k: nat, bytes: seq<byte>, out: seq<byte>)
    requires k <= |data| && data[k..] == Encode(bytes)
    ensures Blocks(data, 8 * |data|, 8 * k, out) == Done(out + bytes, 8 * |data|)
    decreases |bytes|
  {
    hide LE, Stored, StoredBlock, BlockBody;
    if |bytes| <= MAX_STORED {
      assert data[k..k + 5 + |bytes|] == data[k..];
      BlockRead(data, k, true, bytes, out);
      StoredKind(data, 8 * |data|, 8 * k + 3, out);
    } else {
      var first, rest := bytes[..MAX_STORED], bytes[MAX_STORED..];
      var m := k + 5 + MAX_STORED;
      TwoParts(data, k, StoredBlock(false, first), Encode(rest));
      BlockRead(data, k, false, first, out);
      EncodedReads(data, m, rest, out + first);
      NextBlockRead(data, k, m, out, first);
      assert out + first + rest == out + bytes;
    }
  }

  lemma TwoParts(data: seq<byte>, k: nat, a: seq<byte>, b: seq<byte>)
    requires k <= |data| && data[k..] == a + b
    ensures k + |a| <= |data| && data[k..k + |a|] == a && data[k + |a|..] == b
  {
    assert data[k..k + |a|] == data[k..][..|a|] && data[k + |a|..] == data[k..][|a|..];
  }

  /** A block that is not the last, and what follows. */
  lemma NextBlockRead(data: seq<byte>, k: nat, m: nat, out: seq<byte>, first: seq<byte>)
    requires k <= m <= |data| && LE(data, 8 * k, 1) == 0 && LE(data, 8 * k + 1, 2) == 0
    requires Stored(data, 8 * |data|, 8 * k + 3, out) == Done(out + first, 8 * m)
    ensures Blocks(data, 8 * |data|, 8 * k, out) == Blocks(data, 8 * |data|, 8 * m, out + first)
  {
    hide LE, Stored, BlockBody;
    StoredKind(data, 8 * |data|, 8 * k + 3, out);
  }

  lemma StoredKind(data: seq<byte>, limit: nat, pos: nat, out: seq<byte>)
    ensures BlockBody(data, limit, 0, pos, out) == Stored(data, limit, pos, out)
  {
    hide Stored, Tokens, DynamicCodes, FixedLit, FixedDist;
  }

  /** Encoding and then decoding returns the bytes, for every byte sequence that fits. */
  method RoundTrip(bytes: seq<byte>, olen: nat, exp: bool, heap_limit: nat) returns (r: Inflating.Option<seq<byte>>)
    requires olen <= Inflating.UINT_MAX && (exp ==> 0 < olen) && !Inflating.OutOfRoom(|bytes|, olen, exp, heap_limit)
    ensures r == Inflating.Some(bytes)
  {
    hide Blocks, Encode, Inflating.OutOfRoom;
    var data := Encode(bytes);
    assert data[0..] == data && [] + bytes == bytes;
    EncodedReads(data, 0, bytes, []);
    r := Inflating.DecodeZlib(data, olen, exp, heap_limit, false);
  }
}
