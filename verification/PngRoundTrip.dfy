/** An image encoded in seven passes, with any filters, decodes to itself. */
module PngRoundTrip {
  import Widths
  import opened Bits
  import PngFilter
  import opened PngImage
  import PngExpand
  import opened PngDecode
  import opened PngAdam7
  import opened PngInterlace

  /** Scanlines and filters for every pass of a `w` by `h` image. */
  ghost predicate PassShapes(rows: seq<seq<seq<byte>>>, filters: seq<seq<nat>>, w: nat, h: nat, fm: Format) {
    && |rows| == PASSES && |filters| == PASSES
    && forall p :: 0 <= p < PASSES ==> PassShape(rows[p], filters[p], w, h, fm, p)
  }

  ghost predicate PassShape(rows: seq<seq<byte>>, filters: seq<nat>, w: nat, h: nat, fm: Format, p: nat)
    requires p < PASSES
  {
    && |rows| == |filters| == (if EmptyPass(p, w, h) then 0 else PassH(p, h))
    && (!EmptyPass(p, w, h) ==> SizesFit(PassW(p, w), PassH(p, h), fm))
    && forall k :: 0 <= k < |rows| ==> |rows[k]| == fm.RowBytes(PassW(p, w)) && filters[k] <= 4
  }

  /** The filtered data of the passes from `p` on. */
  function EncodePasses(rows: seq<seq<seq<byte>>>, filters: seq<seq<nat>>, w: nat, ghost h: nat, fm: Format, p: nat): seq<byte>
    requires fm.Good() && PassShapes(rows, filters, w, h, fm) && p <= PASSES
    decreases PASSES - p
  {
    if p == PASSES then []
    else EncodeRows(fm.Bpp(), rows[p], filters[p], PngFilter.Zeros(fm.RowBytes(PassW(p, w)))) + EncodePasses(rows, filters, w, h, fm, p + 1)
  }

  function FlatPasses(rows: seq<seq<seq<byte>>>, w: nat, fm: Format, p: nat): (r: seq<seq<byte>>)
    requires fm.Good() && |rows| == PASSES && p <= PASSES
    ensures |r| == PASSES - p
    decreases PASSES - p
  {
    if p == PASSES then [] else [Flat(rows[p], fm, PassW(p, w))] + FlatPasses(rows, w, fm, p + 1)
  }

  lemma {:induction false} FlatPassAt(rows: seq<seq<seq<byte>>>, w: nat, fm: Format, p: nat, q: nat)
    requires fm.Good() && |rows| == PASSES && p <= q < PASSES
    ensures FlatPasses(rows, w, fm, p)[q - p] == Flat(rows[q], fm, PassW(q, w))
    decreases PASSES - p
  {
    hide Flat, PassW;
    if p < q { FlatPassAt(rows, w, fm, p + 1, q); }
  }

  /** All passes are read back, whatever data follows. */
  lemma {:induction false} PassesDecode(rows: seq<seq<seq<byte>>>, filters: seq<seq<nat>>, w: nat, h: nat,
                                        fm: Format, p: nat, rest: seq<byte>)
    requires fm.Good() && PassShapes(rows, filters, w, h, fm) && p <= PASSES
    ensures RefPasses(EncodePasses(rows, filters, w, h, fm, p) + rest, w, h, fm, p) == Passes(FlatPasses(rows, w, fm, p))
    decreases PASSES - p
  {
    hide PassW, PassH, EncodeRows, Flat, RefRows, SizesFit, PassBytes;
    if p < PASSES {
      assert PassShape(rows[p], filters[p], w, h, fm, p);
      var enc := EncodeRows(fm.Bpp(), rows[p], filters[p], PngFilter.Zeros(fm.RowBytes(PassW(p, w))));
      var more := EncodePasses(rows, filters, w, h, fm, p + 1) + rest;
      var data := EncodePasses(rows, filters, w, h, fm, p) + rest;
      assert data == enc + more;
      PassesDecode(rows, filters, w, h, fm, p + 1, rest);
      OnePass(rows[p], filters[p], w, h, fm, p, more);
      if EmptyPass(p, w, h) {
        assert data == more;
      } else {
        assert data[PassBytes(p, w, h, fm)..] == more;
      }
    }
  }

  lemma OnePass(rows: seq<seq<byte>>, filters: seq<nat>, w: nat, h: nat, fm: Format, p: nat, more: seq<byte>)
    requires fm.Good() && p < PASSES && PassShape(rows, filters, w, h, fm, p)
    ensures var enc := EncodeRows(fm.Bpp(), rows, filters, PngFilter.Zeros(fm.RowBytes(PassW(p, w))));
      if EmptyPass(p, w, h) then enc == [] && Flat(rows, fm, PassW(p, w)) == []
      else |enc| == PassBytes(p, w, h, fm) && RefRows(enc + more, PassW(p, w), PassH(p, h), fm) == Rows(rows)
  {
    hide PassW, PassH, SizesFit, Format.RowBytes, ReconRows;
    var prior := PngFilter.Zeros(fm.RowBytes(PassW(p, w)));
    if !EmptyPass(p, w, h) {
      EncodedLength(fm.Bpp(), rows, filters, prior);
      ReconEncoded(fm.Bpp(), rows, filters, prior, more);
    }
  }

  /** Decoding a plain encoding returns the image, for every image, every filter in every row, and
      any data after the rows. */
  method DecodePlain(rows: seq<seq<byte>>, filters: seq<nat>, w: nat, fm: Format, rest: seq<byte>) returns (ok: bool, out: array<byte>)
    requires fm.Good() && 0 < w < DIM_LIMIT && 0 < |rows| < DIM_LIMIT && SizesFit(w, |rows|, fm) && |filters| == |rows|
    requires forall k :: 0 <= k < |rows| ==> |rows[k]| == fm.RowBytes(w) && filters[k] <= 4
    ensures ok && out[..] == Flat(rows, fm, w)
  {
    hide EncodeRows, ReconRows, Flat, SizesFit, Format.RowBytes, RefPasses, AllPlaced;
    var prior := PngFilter.Zeros(fm.RowBytes(w));
    ReconEncoded(fm.Bpp(), rows, filters, prior, rest);
    ok, out := CreateImage(EncodeRows(fm.Bpp(), rows, filters, prior) + rest, w, |rows|, fm, false);
  }

  // ----- pixels -----

  lemma {:induction false} FlatRow(rows: seq<seq<byte>>, fm: Format, x: nat, j: nat, s: nat, at: nat)
    requires fm.Good() && j < |rows| && s == fm.Stride(x) && at == PngExpand.Times(j, s)
    ensures at + s <= |Flat(rows, fm, x)| && Flat(rows, fm, x)[at..at + s] == RowOut(rows[j], fm, x)
    decreases |rows|
  {
    hide RowOut, Format.Stride;
    RowOutLength(rows[0], fm, x);
    var head, tail := RowOut(rows[0], fm, x), Flat(rows[1..], fm, x);
    if j == 0 {
      assert (head + tail)[0..s] == head;
    } else {
      FlatRow(rows[1..], fm, x, j - 1, s, at - s);
      assert (head + tail)[at..at + s] == tail[at - s..at];
    }
  }

  /** Pixel `(i, j)` of a flat image is pixel `i` of row `j`. */
  lemma FlatPixel(rows: seq<seq<byte>>, fm: Format, x: nat, i: nat, j: nat)
    requires fm.Good() && i < x && j < |rows|
    ensures PixelAt(Flat(rows, fm, x), x, fm.PixelBytes(), i, j)
         == PixelAt(RowOut(rows[j], fm, x), x, fm.PixelBytes(), i, 0)
  {
    hide RowOut, Flat, PngExpand.Times;
    var n, s := fm.PixelBytes(), fm.Stride(x);
    PngExpand.TimesProduct(j, s);
    FlatRow(rows, fm, x, j, s, j * s);
    RowOutLength(rows[j], fm, x);
    OffsetSplit(x, n, i, j);
    OffsetSplit(x, n, i, 0);
    PixelInRow(Flat(rows, fm, x), j * s, s, i * n, n);
  }

  lemma PixelInRow(f: seq<byte>, at: nat, s: nat, k: nat, n: nat)
    requires at + s <= |f| && k + n <= s
    ensures f[at..at + s][k..k + n] == f[at + k..at + k + n]
  {
    var row := f[at..at + s];
    assert forall m :: k <= m < k + n ==> row[m] == f[at + m];
    assert row[k..k + n] == f[at + k..at + k + n];
  }

  lemma OffsetSplit(x: nat, n: nat, i: nat, j: nat)
    requires i < x
    ensures Offset(x, n, i, j) == j * (x * n) + i * n && i * n + n <= x * n
  {
    MulMono(n, i + 1, x);
    Distribute(j * x, i, n);
    Associate(j, x, n);
  }

  lemma Distribute(a: nat, b: nat, n: nat)
    ensures (a + b) * n == a * n + b * n
  {
  }

  lemma Associate(a: nat, b: nat, n: nat)
    ensures (a * b) * n == a * (b * n)
  {
  }

  /** The scanlines carry the image: pixel `(i, j)` of pass `p` is the image's pixel there. */
  ghost predicate Carries(rows: seq<seq<seq<byte>>>, w: nat, h: nat, fm: Format, image: (nat, nat) -> seq<byte>)
    requires fm.Good() && |rows| == PASSES
  {
    forall p, i, j :: 0 <= p < PASSES && 0 <= i < PassW(p, w) && 0 <= j < PassH(p, h) ==> CarriesPixel(rows[p], w, fm, p, i, j, image)
  }

  ghost predicate CarriesPixel(rows: seq<seq<byte>>, w: nat, fm: Format, p: nat, i: nat, j: nat, image: (nat, nat) -> seq<byte>)
    requires fm.Good() && p < PASSES
  {
    j < |rows| && PixelAt(RowOut(rows[j], fm, PassW(p, w)), PassW(p, w), fm.PixelBytes(), i, 0) == image(PassX(p, i), PassY(p, j))
  }

  /** Every pixel of the decoder's output is the image's pixel. */
  lemma InterlacedPixel(final: seq<byte>, rows: seq<seq<seq<byte>>>, w: nat, h: nat, fm: Format,
                        image: (nat, nat) -> seq<byte>, x: nat, y: nat)
    requires fm.Good() && |rows| == PASSES && x < w < DIM_LIMIT && y < h < DIM_LIMIT
    requires Carries(rows, w, h, fm, image)
    requires AllPlaced(final, w, h, fm.PixelBytes(), FlatPasses(rows, w, fm, 0), PASSES, 0, 0)
    ensures PixelAt(final, w, fm.PixelBytes(), x, y) == image(x, y)
  {
    hide PassW, PassH, PassX, PassY, PassOf, Flat, RowOut, FlatPasses, Offset;
    var p, n := PassOf(x, y), fm.PixelBytes();
    var i, j := PassCovers(x, y, w, h);
    FlatPassAt(rows, w, fm, 0, p);
    assert Placed(final, w, n, FlatPasses(rows, w, fm, 0)[p], p, i, j);
    assert CarriesPixel(rows[p], w, fm, p, i, j, image);
    FlatPixel(rows[p], fm, PassW(p, w), i, j);
  }

  lemma InterlacedImage(final: seq<byte>, rows: seq<seq<seq<byte>>>, w: nat, h: nat, fm: Format, image: (nat, nat) -> seq<byte>)
    requires fm.Good() && |rows| == PASSES && w < DIM_LIMIT && h < DIM_LIMIT
    requires Carries(rows, w, h, fm, image)
    requires AllPlaced(final, w, h, fm.PixelBytes(), FlatPasses(rows, w, fm, 0), PASSES, 0, 0)
    ensures ShowsImage(final, w, h, fm.PixelBytes(), image)
  {
    hide AllPlaced, FlatPasses, Carries, PixelAt, Format.PixelBytes;
    forall x, y | 0 <= x < w && 0 <= y < h
      ensures PixelAt(final, w, fm.PixelBytes(), x, y) == image(x, y)
    {
      InterlacedPixel(final, rows, w, h, fm, image, x, y);
    }
  }

  ghost predicate ShowsImage(final: seq<byte>, w: nat, h: nat, n: nat, image: (nat, nat) -> seq<byte>) {
    forall x, y :: 0 <= x < w && 0 <= y < h ==> PixelAt(final, w, n, x, y) == image(x, y)
  }

  /** Decoding an interlaced encoding returns the image, for every image, every filter in every
      row of every pass, and any data after the passes. */
  method DecodeInterlaced(rows: seq<seq<seq<byte>>>, filters: seq<seq<nat>>, w: nat, h: nat, fm: Format, rest: seq<byte>,
                          ghost image: (nat, nat) -> seq<byte>) returns (ok: bool, out: array<byte>)
    requires fm.Good() && 0 < w < DIM_LIMIT && 0 < h < DIM_LIMIT && w * h * fm.PixelBytes() <= Widths.INT_MAX
    requires PassShapes(rows, filters, w, h, fm) && Carries(rows, w, h, fm, image)
    ensures ok && out.Length == w * h * fm.PixelBytes()
    ensures ShowsImage(out[..], w, h, fm.PixelBytes(), image)
  {
    assert |rows| == PASSES;
    hide AllPlaced, RefPasses, EncodePasses, FlatPasses, Carries, PassShapes, RefRows, Flat, SizesFit, ShowsImage, Format.PixelBytes;
    var data := EncodePasses(rows, filters, w, h, fm, 0) + rest;
    PassesDecode(rows, filters, w, h, fm, 0, rest);
    ok, out := CreateImage(data, w, h, fm, true);
    InterlacedImage(out[..], rows, w, h, fm, image);
  }
}
