/** How far past its data a DEFLATE stream can be read: only zeros are there, so the reading of tokens
    ends at once or never. */
module DeflateEnd {
  import opened Bits
  import opened BitStream
  import opened Canonical
  import opened Deflate

  /** What a dynamic header and a last token can take, in bits. */
  const SLACK: nat := 7200

  lemma {:induction false} BEPastEnd(data: seq<byte>, pos: nat, n: nat)
    requires pos >= 8 * |data|
    ensures BE(data, pos, n) == 0
  {
    if n > 0 { BEPastEnd(data, pos, n - 1); }
  }

  /** Past the data every position has the same symbol. */
  lemma SymbolPastEnd(lens: seq<nat>, data: seq<byte>, p: nat, q: nat)
    requires LensAtMost(lens, MAX_BITS) && p >= 8 * |data| && q >= 8 * |data|
    ensures SymbolAt(lens, data, p) == SymbolAt(lens, data, q)
  {
    hide BE, Code, SymbolAt;
    forall i | 0 <= i < |lens| ensures CodeAt(lens, i, data, p) <==> CodeAt(lens, i, data, q) {
      BEPastEnd(data, p, lens[i]);
      BEPastEnd(data, q, lens[i]);
    }
    var s := SymbolAt(lens, data, p);
    if s >= 0 { SymbolAtUnique(lens, s, data, q); }
  }

  lemma TokenLength(data: seq<byte>, lit: seq<nat>, dist: seq<nat>, pos: nat)
    requires LensAtMost(lit, 15) && LensAtMost(dist, 15)
    ensures ReadToken(data, lit, dist, pos).next <= pos + 50
    ensures ReadToken(data, lit, dist, pos).token.EndOfBlock? <==> SymbolAt(lit, data, pos) == 256
    ensures ReadToken(data, lit, dist, pos).token.EndOfBlock? ==> ReadToken(data, lit, dist, pos).next <= pos + 15
  {
    hide SymbolAt, LE, LengthBase, DistBase;
  }

  /** A block whose next symbol is in the zeros and does not end it never ends. */
  lemma {:induction false} NeverEnds(data: seq<byte>, limit: nat, lit: seq<nat>, dist: seq<nat>, pos: nat, out: seq<byte>)
    requires LensAtMost(lit, 15) && LensAtMost(dist, 15) && pos >= 8 * |data| && SymbolAt(lit, data, pos) != 256
    ensures Tokens(data, limit, lit, dist, pos, out).Fail?
    decreases if pos <= limit then limit - pos + 1 else 0
  {
    hide ReadToken, SymbolAt, Apply;
    TokenLength(data, lit, dist, pos);
    var t := ReadToken(data, lit, dist, pos);
    if pos <= limit && Applies(t.token, out) {
      SymbolPastEnd(lit, data, pos, t.next);
      NeverEnds(data, limit, lit, dist, t.next, Apply(t.token, out));
    }
  }

  lemma {:induction false} TokensEnd(data: seq<byte>, limit: nat, lit: seq<nat>, dist: seq<nat>, pos: nat, out: seq<byte>)
    requires LensAtMost(lit, 15) && LensAtMost(dist, 15)
    ensures var r := Tokens(data, limit, lit, dist, pos, out);
      r.Done? ==> r.pos <= 15 + if pos <= 8 * |data| + 50 then 8 * |data| + 50 else pos
    decreases if pos <= limit then limit - pos + 1 else 0
  {
    hide ReadToken, SymbolAt, Apply;
    TokenLength(data, lit, dist, pos);
    var t := ReadToken(data, lit, dist, pos);
    if pos >= 8 * |data| {
      if SymbolAt(lit, data, pos) != 256 { NeverEnds(data, limit, lit, dist, pos, out); }
    } else if pos <= limit && Applies(t.token, out) {
      TokensEnd(data, limit, lit, dist, t.next, Apply(t.token, out));
    }
  }

  lemma {:induction false} LensEnd(data: seq<byte>, cl: seq<nat>, total: nat, pos: nat, acc: seq<nat>)
    requires LensAtMost(cl, 15) && |acc| <= total
    ensures var r := ReadLens(data, cl, total, pos, acc); r.Lens? ==> r.pos <= pos + 22 * (total - |acc|)
    decreases total - |acc|
  {
    hide SymbolAt, LE;
    var r := ReadRun(data, cl, pos, acc);
    if |acc| < total && r.Run? && |acc| + r.count <= total {
      LensEnd(data, cl, total, r.next, acc + Repeat(r.value, r.count));
    }
  }

  lemma HeaderEnd(data: seq<byte>, pos: nat)
    ensures var r := DynamicCodes(data, pos); r.Codes? ==> r.pos <= pos + 7111 && LensAtMost(r.lit, 15) && LensAtMost(r.dist, 15)
  {
    hide LE, ReadLens, CodeLengthLens, Kraft;
    LEBound(data, pos, 5);
    LEBound(data, pos + 5, 5);
    LEBound(data, pos + 10, 4);
    Pow2Values();
    var hlit, hdist, hclen := 257 + LE(data, pos, 5), 1 + LE(data, pos + 5, 5), 4 + LE(data, pos + 10, 4);
    var cl := CodeLengthLens(data, pos + 14, hclen);
    if GoodCode(cl) { LensEnd(data, cl, hlit + hdist, pos + 14 + 3 * hclen, []); }
  }

  /** The complement of a stored length is never zero bits only, so it is all in the data. */
  lemma StoredEnd(data: seq<byte>, limit: nat, pos: nat, out: seq<byte>)
    ensures var r := Stored(data, limit, pos, out); r.Done? ==> r.pos <= 8 * |data| + 32
  {
    hide LE;
    var p := AlignUp(pos);
    var len := LE(data, p, 16);
    if p >= 8 * |data| {
      LEPastEnd(data, p, 16);
      LEPastEnd(data, p + 16, 16);
    }
  }

  lemma BodyEnd(data: seq<byte>, limit: nat, kind: nat, pos: nat, out: seq<byte>)
    requires pos <= 8 * |data| + 2
    ensures var r := BlockBody(data, limit, kind, pos, out); r.Done? ==> r.pos <= 8 * |data| + SLACK
  {
    hide Stored, Tokens, DynamicCodes, FixedLit, FixedDist, Kraft;
    StoredEnd(data, limit, pos, out);
    FixedCodesGood();
    TokensEnd(data, limit, FixedLit(), FixedDist(), pos, out);
    HeaderEnd(data, pos);
    var c := DynamicCodes(data, pos);
    if c.Codes? { TokensEnd(data, limit, c.lit, c.dist, c.pos, out); }
  }

  /** Past the end of the data every block header reads as an empty stored block whose
      complement is missing. */
  lemma NothingPastEnd(data: seq<byte>, limit: nat, p: nat, w: seq<byte>)
    requires p >= 8 * |data|
    ensures BlockBody(data, limit, LE(data, p + 1, 2), p + 3, w).Fail?
  {
    LEPastEnd(data, p + 1, 2);
    var q := AlignUp(p + 3);
    LEPastEnd(data, q, 16);
    LEPastEnd(data, q + 16, 16);
  }

  /** Whatever the limit, no stream is read further than this past its data. */
  lemma {:induction false} BlocksEnd(data: seq<byte>, limit: nat, pos: nat, out: seq<byte>)
    ensures var r := Blocks(data, limit, pos, out); r.Done? ==> r.pos <= 8 * |data| + SLACK
    decreases if pos <= limit then limit - pos + 1 else 0
  {
    hide LE, BlockBody;
    if pos >= 8 * |data| {
      NothingPastEnd(data, limit, pos, out);
    } else if pos <= limit {
      var kind := LE(data, pos + 1, 2);
      BodyEnd(data, limit, kind, pos + 3, out);
      var b := BlockBody(data, limit, kind, pos + 3, out);
      if b.Done? { BlocksEnd(data, limit, b.pos, b.out); }
    }
  }

  lemma InflateEnd(data: seq<byte>, limit: nat, header: bool)
    ensures var r := Inflate(data, limit, header); r.Done? ==> r.pos <= 8 * |data| + SLACK
  {
    hide Blocks;
    BlocksEnd(data, limit, if header then 16 else 0, []);
  }
}
