/** `stbi__create_png_image`: the seven passes of an interlaced image are decoded one after the
    other and their pixels copied to their places. */
module PngInterlace {
  import Widths
  import opened Bits
  import opened PngImage
  import PngExpand
  import opened PngDecode
  import opened PngAdam7
  import PngPixels

  // ----- where a pixel lies in a flat image -----

  /** The offset of pixel `(x, y)` in rows of `w` pixels of `n` bytes. */
  function Offset(w: nat, n: nat, x: nat, y: nat): nat {
    (y * w + x) * n
  }

  /** The bytes of pixel `(x, y)`, if they are all there. */
  ghost function PixelAt(image: seq<byte>, w: nat, n: nat, x: nat, y: nat): seq<byte> {
    var at := Offset(w, n, x, y);
    if at + n <= |image| then image[at..at + n] else []
  }

  /** Different pixels do not overlap. */
  lemma OffsetApart(w: nat, n: nat, x: nat, y: nat, x': nat, y': nat)
    requires x < w && x' < w && (x != x' || y != y')
    ensures Offset(w, n, x, y) + n <= Offset(w, n, x', y') || Offset(w, n, x', y') + n <= Offset(w, n, x, y)
  {
    Earlier(w, x, y, x', y');
    Earlier(w, x', y', x, y);
    var a, b := y * w + x, y' * w + x';
    if a < b {
      MulMono(n, a + 1, b);
    } else {
      MulMono(n, b + 1, a);
    }
  }

  lemma Earlier(w: nat, x: nat, y: nat, x': nat, y': nat)
    requires x < w
    ensures y < y' || (y == y' && x < x') ==> y * w + x < y' * w + x'
  {
    if y < y' {
      MulMono(w, y + 1, y');
    }
  }

  lemma OffsetInside(w: nat, h: nat, n: nat, x: nat, y: nat)
    requires x < w && y < h
    ensures Offset(w, n, x, y) + n <= w * h * n
  {
    MulMono(w, y + 1, h);
    MulMono(n, y * w + x + 1, w * h);
  }

  // ----- the reference -----

  datatype Passes = NoPasses | Passes(images: seq<seq<byte>>)

  function PrependPass(image: seq<byte>, r: Passes): Passes {
    if r.NoPasses? then NoPasses else Passes([image] + r.images)
  }

  predicate EmptyPass(p: nat, w: nat, h: nat)
    requires p < PASSES
  {
    PassW(p, w) == 0 || PassH(p, h) == 0
  }

  /** The bytes of filtered data that pass `p` takes. */
  function PassBytes(p: nat, w: nat, h: nat, fm: Format): nat
    requires p < PASSES
  {
    (fm.RowBytes(PassW(p, w)) + 1) * PassH(p, h)
  }

  /** The decoded passes from `p` on; a pass without pixels takes no data. */
  function RefPasses(data: seq<byte>, w: nat, h: nat, fm: Format, p: nat): (r: Passes)
    requires fm.Good() && p <= PASSES
    ensures r.Passes? ==> |r.images| == PASSES - p
    decreases PASSES - p
  {
    if p == PASSES then Passes([])
    else if EmptyPass(p, w, h) then PrependPass([], RefPasses(data, w, h, fm, p + 1))
    else if !SizesFit(PassW(p, w), PassH(p, h), fm) then NoPasses
    else
      var rows := RefRows(data, PassW(p, w), PassH(p, h), fm);
      if rows.NoRows? || PassBytes(p, w, h, fm) > |data| then NoPasses
      else PrependPass(Flat(rows.rows, fm, PassW(p, w)), RefPasses(data[PassBytes(p, w, h, fm)..], w, h, fm, p + 1))
  }

  // ----- copying the pixels -----

  /** Pixel `(i, j)` of pass `p` is at its place in the image. */
  ghost predicate Placed(final: seq<byte>, w: nat, n: nat, pass: seq<byte>, p: nat, i: nat, j: nat)
    requires p < PASSES
  {
    var to, from := Offset(w, n, PassX(p, i), PassY(p, j)), Offset(PassW(p, w), n, i, j);
    && to + n <= |final| && from + n <= |pass|
    && final[to..to + n] == pass[from..from + n]
  }

  /** The pixels of the passes before `p`, the rows of `p` before `j`, and those left of `i`. */
  predicate Before(p: nat, i: nat, j: nat, q: nat, k: nat, l: nat) {
    q < p || (q == p && (l < j || (l == j && k < i)))
  }

  ghost predicate AllPlaced(final: seq<byte>, w: nat, h: nat, n: nat, images: seq<seq<byte>>, p: nat, i: nat, j: nat)
    requires PASSES <= |images|
  {
    forall q, k, l :: 0 <= q < PASSES && 0 <= k < PassW(q, w) && 0 <= l < PassH(q, h) && Before(p, i, j, q, k, l)
      ==> Placed(final, w, n, images[q], q, k, l)
  }

  lemma CopyKeeps(a: seq<byte>, b: seq<byte>, to: nat, v: seq<byte>, other: nat)
    requires to + |v| <= |a| && b == a[..to] + v + a[to + |v|..] && other + |v| <= |a|
    requires other + |v| <= to || to + |v| <= other
    ensures b[other..other + |v|] == a[other..other + |v|]
  {
  }

  /** Copying one more pixel keeps those already copied at their places. */
  lemma PlaceOne(a: seq<byte>, b: seq<byte>, w: nat, h: nat, n: nat, images: seq<seq<byte>>, p: nat, i: nat, j: nat)
    requires |images| == PASSES && p < PASSES && w < DIM_LIMIT && h < DIM_LIMIT
    requires i < PassW(p, w) && j < PassH(p, h) && AllPlaced(a, w, h, n, images, p, i, j)
    requires var from := Offset(PassW(p, w), n, i, j); from + n <= |images[p]|
    requires var to := Offset(w, n, PassX(p, i), PassY(p, j)); var from := Offset(PassW(p, w), n, i, j);
      to + n <= |a| && b == a[..to] + images[p][from..from + n] + a[to + n..]
    ensures AllPlaced(b, w, h, n, images, p, i + 1, j)
  {
    hide Offset, PassX, PassY, PassW, PassH;
    var to, from := Offset(w, n, PassX(p, i), PassY(p, j)), Offset(PassW(p, w), n, i, j);
    forall q, k, l | 0 <= q < PASSES && 0 <= k < PassW(q, w) && 0 <= l < PassH(q, h) && Before(p, i + 1, j, q, k, l)
      ensures Placed(b, w, n, images[q], q, k, l)
    {
      if q == p && k == i && l == j {
        assert b[to..to + n] == images[p][from..from + n];
      } else {
        assert Placed(a, w, n, images[q], q, k, l);
        if PassX(p, i) == PassX(q, k) && PassY(p, j) == PassY(q, l) {
          PassInjective(p, i, j, q, k, l);
        }
        PassWCounts(p, w, i);
        PassWCounts(q, w, k);
        OffsetApart(w, n, PassX(p, i), PassY(p, j), PassX(q, k), PassY(q, l));
        CopyKeeps(a, b, to, images[p][from..from + n], Offset(w, n, PassX(q, k), PassY(q, l)));
      }
    }
  }

  /** The pixels of one pass, row by row. */
  method CopyPass(final: array<byte>, w: nat, h: nat, n: nat, src: array<byte>, p: nat, ghost images: seq<seq<byte>>)
    requires final != src && p < PASSES && |images| == PASSES && images[p] == src[..]
    requires w < DIM_LIMIT && h < DIM_LIMIT && final.Length == w * h * n
    requires src.Length == PassW(p, w) * PassH(p, h) * n
    requires AllPlaced(final[..], w, h, n, images, p, 0, 0)
    modifies final
    ensures AllPlaced(final[..], w, h, n, images, p + 1, 0, 0)
  {
    hide AllPlaced, PassW, PassH;
    var x, y := PassW(p, w), PassH(p, h);
    for j := 0 to y
      invariant AllPlaced(final[..], w, h, n, images, p, 0, j)
    {
      for i := 0 to x
        invariant AllPlaced(final[..], w, h, n, images, p, i, j)
      {
        CopyPixel(final, w, h, n, src, p, i, j, images);
      }
      RowPlaced(final[..], w, h, n, images, p, j);
    }
    PassPlaced(final[..], w, h, n, images, p);
  }

  lemma RowPlaced(final: seq<byte>, w: nat, h: nat, n: nat, images: seq<seq<byte>>, p: nat, j: nat)
    requires p < PASSES && |images| == PASSES && AllPlaced(final, w, h, n, images, p, PassW(p, w), j)
    ensures AllPlaced(final, w, h, n, images, p, 0, j + 1)
  {
    hide Placed, PassW, PassH;
  }

  lemma PassPlaced(final: seq<byte>, w: nat, h: nat, n: nat, images: seq<seq<byte>>, p: nat)
    requires p < PASSES && |images| == PASSES && AllPlaced(final, w, h, n, images, p, 0, PassH(p, h))
    ensures AllPlaced(final, w, h, n, images, p + 1, 0, 0)
  {
    hide Placed, PassW, PassH;
  }

  method CopyPixel(final: array<byte>, w: nat, h: nat, n: nat, src: array<byte>, p: nat, i: nat, j: nat, ghost images: seq<seq<byte>>)
    requires final != src && p < PASSES && |images| == PASSES && images[p] == src[..]
    requires w < DIM_LIMIT && h < DIM_LIMIT && final.Length == w * h * n
    requires src.Length == PassW(p, w) * PassH(p, h) * n && i < PassW(p, w) && j < PassH(p, h)
    requires AllPlaced(final[..], w, h, n, images, p, i, j)
    modifies final
    ensures AllPlaced(final[..], w, h, n, images, p, i + 1, j)
  {
    hide AllPlaced, PassW, PassH, Offset;
    PassWCounts(p, w, i);
    PassHCounts(p, h, j);
    OffsetInside(w, h, n, PassX(p, i), PassY(p, j));
    OffsetInside(PassW(p, w), PassH(p, h), n, i, j);
    ghost var was := final[..];
    var to, from := Offset(w, n, PassX(p, i), PassY(p, j)), Offset(PassW(p, w), n, i, j);
    CopyBytes(final, to, src, from, n);
    assert images[p][from..from + n] == src[from..from + n];
    PlaceOne(was, final[..], w, h, n, images, p, i, j);
  }

  /** `memcpy`. */
  method CopyBytes(dest: array<byte>, d: nat, src: array<byte>, s: nat, n: nat)
    requires dest != src && d + n <= dest.Length && s + n <= src.Length
    modifies dest
    ensures dest[..] == old(dest[..d]) + src[s..s + n] + old(dest[d + n..])
  {
    ghost var was := dest[..];
    for k := 0 to n
      invariant dest[..d] == was[..d] && dest[d..d + k] == src[s..s + k] && dest[d + k..] == was[d + k..]
    {
      dest[d + k] := src[s + k];
    }
    assert dest[..] == dest[..d] + dest[d..d + n] + dest[d + n..];
  }

  // ----- the whole image -----

  function PrependPasses(images: seq<seq<byte>>, r: Passes): Passes {
    if r.NoPasses? then NoPasses else Passes(images + r.images)
  }

  /** The passes before `p`, and those that the data from `pos` on decodes to, are all passes. */
  ghost predicate Remaining(data: seq<byte>, w: nat, h: nat, fm: Format, p: nat, pos: nat, images: seq<seq<byte>>)
    requires fm.Good()
  {
    && p <= PASSES && pos <= |data| && |images| == PASSES
    && RefPasses(data, w, h, fm, 0) == PrependPasses(images[..p], RefPasses(data[pos..], w, h, fm, p))
  }

  method CreateImage(data: seq<byte>, w: nat, h: nat, fm: Format, interlaced: bool) returns (ok: bool, out: array<byte>)
    requires fm.Good() && 0 < w < DIM_LIMIT && 0 < h < DIM_LIMIT
    ensures !interlaced ==> (ok <==> SizesFit(w, h, fm) && RefRows(data, w, h, fm).Rows?)
    ensures !interlaced && ok ==> out[..] == Flat(RefRows(data, w, h, fm).rows, fm, w)
    ensures interlaced ==> (ok <==> w * h * fm.PixelBytes() <= Widths.INT_MAX && RefPasses(data, w, h, fm, 0).Passes?)
    ensures interlaced && ok ==> out.Length == w * h * fm.PixelBytes()
    ensures interlaced && ok ==>
      AllPlaced(out[..], w, h, fm.PixelBytes(), RefPasses(data, w, h, fm, 0).images, PASSES, 0, 0)
    ensures !interlaced && ok ==> PngPixels.Decoded(data, w, h, fm.depth, fm.imgN, fm.outN, fm.gray, out[..])
    ensures !interlaced ==> (ok <==> PngPixels.ImageHeld(data, w, h, fm.depth, fm.imgN, fm.outN))
    ensures interlaced ==> (ok <==> PngPixels.InterlacedHeld(data, w, h, fm.depth, fm.imgN, fm.outN))
    ensures interlaced && ok ==> PngPixels.Interlaced(data, w, h, fm.depth, fm.imgN, fm.outN, fm.gray, out[..])
  {
    hide RefRows, Flat, SizesFit, RefPasses, AllPlaced, Remaining, Mad3SizesValid, PngPixels.Decoded;
    hide PngPixels.Interlaced, PngPixels.Filtered;
    hide PngPixels.ImageHeld, PngPixels.PassesHeld;
    assert fm.PixelBytes() == PngPixels.PixelSize(fm.depth, fm.outN);
    PassesAreHeld(data, w, h, fm, 0);
    if !interlaced {
      ok, out := CreateImageRaw(data, w, h, fm);
      return;
    }
    var n := fm.PixelBytes();
    Mad3SizesExact(w, h, n, 0);
    if !Mad3SizesValid(w, h, n, 0) {
      return false, new byte[0];
    }
    out := new byte[w * h * n];
    var pos := 0;
    ghost var images: seq<seq<byte>> := seq(PASSES, _ => []);
    PassesStart(data, w, h, fm, out[..], images);
    for p := 0 to PASSES
      invariant |images| == PASSES && Remaining(data, w, h, fm, p, pos, images)
      invariant AllPlaced(out[..], w, h, n, images, p, 0, 0)
    {
      ok, pos, images := DecodePass(data, w, h, fm, out, p, pos, images);
      if !ok {
        return;
      }
    }
    PassesEnd(data, w, h, fm, pos, images);
    ImageInterlaced(data, w, h, fm, out[..]);
    ok := true;
  }

  /** The pass sizes, written out. */
  lemma PassSizesWritten(p: nat, w: nat)
    requires p < PASSES && w < DIM_LIMIT
    ensures PassW(p, w) == PngPixels.Columns(p, w) && PassH(p, w) == PngPixels.Lines(p, w)
  {
    hide PassSize;
    NoWrap(w, XORIG[p], XSPC[p]);
    NoWrap(w, YORIG[p], YSPC[p]);
    SizeWritten(w, XORIG[p], XSPC[p]);
    SizeWritten(w, YORIG[p], YSPC[p]);
  }

  lemma LineWritten(fm: Format, x: nat)
    ensures fm.RowBytes(x) == PngPixels.LineBytes(x, fm.depth, fm.imgN)
  {
  }

  lemma SizeWritten(n: nat, orig: nat, spc: nat)
    requires n < DIM_LIMIT && orig < spc <= 8
    ensures PassSize(n, orig, spc) == (n + spc - 1 - orig) / spc
  {
    NoWrap(n, orig, spc);
  }

  lemma {:induction false} PassesAreDecoded(data: seq<byte>, w: nat, h: nat, fm: Format, p: nat, images: seq<seq<byte>>)
    requires fm.Good() && p <= PASSES == |images| && w < DIM_LIMIT && h < DIM_LIMIT
    requires RefPasses(data, w, h, fm, p) == Passes(images[p..])
    ensures PngPixels.PassesDecoded(data, w, h, fm.depth, fm.imgN, fm.outN, fm.gray, images, p)
    decreases PASSES - p
  {
    hide PassW, PassH, PngPixels.Columns, PngPixels.Lines, PngPixels.Decoded, PngPixels.Filtered, RefRows, Flat, SizesFit;
    hide PngPixels.LineBytes, Format.RowBytes;
    if p < PASSES {
      LineWritten(fm, PassW(p, w));
      PassSizesWritten(p, w);
      PassSizesWritten(p, h);
      assert images[p..][0] == images[p] && images[p..][1..] == images[p + 1..];
      if EmptyPass(p, w, h) {
        PassesAreDecoded(data, w, h, fm, p + 1, images);
      } else {
        RefDecoded(data, PassW(p, w), PassH(p, h), fm);
        PassesAreDecoded(data[PassBytes(p, w, h, fm)..], w, h, fm, p + 1, images);
      }
    }
  }

  lemma {:induction false} PassesAreHeld(data: seq<byte>, w: nat, h: nat, fm: Format, p: nat)
    requires fm.Good() && p <= PASSES && w < DIM_LIMIT && h < DIM_LIMIT
    ensures RefPasses(data, w, h, fm, p).Passes? <==> PngPixels.PassesHeld(data, w, h, fm.depth, fm.imgN, fm.outN, p)
    decreases PASSES - p
  {
    hide PassW, PassH, PngPixels.Columns, PngPixels.Lines, PngPixels.Filtered, RefRows, Flat, SizesFit, PngPixels.SizeAdmitted;
    hide PngPixels.Decoded, PngPixels.LineBytes, Format.RowBytes;
    if p < PASSES {
      LineWritten(fm, PassW(p, w));
      PassSizesWritten(p, w);
      PassSizesWritten(p, h);
      RefDecoded(data, PassW(p, w), PassH(p, h), fm);
      SizesWritten(PassW(p, w), PassH(p, h), fm);
      if EmptyPass(p, w, h) {
        PassesAreHeld(data, w, h, fm, p + 1);
      } else if PassBytes(p, w, h, fm) <= |data| {
        PassesAreHeld(data[PassBytes(p, w, h, fm)..], w, h, fm, p + 1);
      }
    }
  }

  lemma ImageInterlaced(data: seq<byte>, w: nat, h: nat, fm: Format, out: seq<byte>)
    requires fm.Good() && w < DIM_LIMIT && h < DIM_LIMIT && RefPasses(data, w, h, fm, 0).Passes?
    requires AllPlaced(out, w, h, fm.PixelBytes(), RefPasses(data, w, h, fm, 0).images, PASSES, 0, 0)
    ensures PngPixels.Interlaced(data, w, h, fm.depth, fm.imgN, fm.outN, fm.gray, out)
  {
    hide RefPasses, PassW, PassH, PngPixels.Columns, PngPixels.Lines, PngPixels.PassesDecoded;
    var images := RefPasses(data, w, h, fm, 0).images;
    assert images[0..] == images;
    PassesAreDecoded(data, w, h, fm, 0, images);
    forall p, i, j | 0 <= p < 7 && 0 <= i < PngPixels.Columns(p, w) && 0 <= j < PngPixels.Lines(p, h)
      ensures PngPixels.InItsPlace(out, w, PngPixels.PixelSize(fm.depth, fm.outN), images[p], p, i, j)
    {
      PassSizesWritten(p, w);
      PassSizesWritten(p, h);
      assert Placed(out, w, fm.PixelBytes(), images[p], p, i, j);
    }
  }

  lemma PassesStart(data: seq<byte>, w: nat, h: nat, fm: Format, final: seq<byte>, images: seq<seq<byte>>)
    requires fm.Good() && |images| == PASSES
    ensures Remaining(data, w, h, fm, 0, 0, images)
    ensures AllPlaced(final, w, h, fm.PixelBytes(), images, 0, 0, 0)
  {
    hide RefPasses;
    assert data[0..] == data;
    var r := RefPasses(data, w, h, fm, 0);
    if r.Passes? {
      assert images[..0] + r.images == r.images;
    }
  }

  lemma PassesEnd(data: seq<byte>, w: nat, h: nat, fm: Format, pos: nat, images: seq<seq<byte>>)
    requires fm.Good() && Remaining(data, w, h, fm, PASSES, pos, images)
    ensures RefPasses(data, w, h, fm, 0) == Passes(images)
  {
    assert RefPasses(data[pos..], w, h, fm, PASSES) == Passes([]);
    assert images[..PASSES] + [] == images;
  }

  /** Decodes and copies pass `p`, if it has pixels. */
  method DecodePass(data: seq<byte>, w: nat, h: nat, fm: Format, final: array<byte>, p: nat, pos: nat, ghost images: seq<seq<byte>>)
    returns (ok: bool, pos': nat, ghost images': seq<seq<byte>>)
    requires fm.Good() && w < DIM_LIMIT && h < DIM_LIMIT && p < PASSES && |images| == PASSES
    requires final.Length == w * h * fm.PixelBytes()
    requires Remaining(data, w, h, fm, p, pos, images)
    requires AllPlaced(final[..], w, h, fm.PixelBytes(), images, p, 0, 0)
    modifies final
    ensures ok ==> |images'| == PASSES && Remaining(data, w, h, fm, p + 1, pos', images')
    ensures ok ==> AllPlaced(final[..], w, h, fm.PixelBytes(), images', p + 1, 0, 0)
    ensures !ok ==> RefPasses(data, w, h, fm, 0).NoPasses?
  {
    hide RefRows, Flat, SizesFit, RefPasses, AllPlaced, PassW, PassH, Format.RowBytes;
    var x, y := PassW(p, w), PassH(p, h);
    if x == 0 || y == 0 {
      SkipPass(data, w, h, fm, final[..], p, pos, images);
      return true, pos, images[p := []];
    }
    var good, out := CreateImageRaw(data[pos..], x, y, fm);
    if !good {
      FailPass(data, w, h, fm, p, pos, images);
      return false, pos, images;
    }
    images' := images[p := out[..]];
    TakePass(data, w, h, fm, p, pos, images);
    OtherImage(final[..], w, h, fm.PixelBytes(), images, p, out[..]);
    CopyPass(final, w, h, fm.PixelBytes(), out, p, images');
    ok, pos' := true, pos + (fm.RowBytes(x) + 1) * y;
  }

  /** Placement before pass `p` does not depend on that pass's image. */
  lemma OtherImage(final: seq<byte>, w: nat, h: nat, n: nat, images: seq<seq<byte>>, p: nat, image: seq<byte>)
    requires p < PASSES == |images| && AllPlaced(final, w, h, n, images, p, 0, 0)
    ensures AllPlaced(final, w, h, n, images[p := image], p, 0, 0)
  {
    hide Placed, PassW, PassH;
  }

  lemma SkipPass(data: seq<byte>, w: nat, h: nat, fm: Format, final: seq<byte>, p: nat, pos: nat, images: seq<seq<byte>>)
    requires fm.Good() && p < PASSES && EmptyPass(p, w, h) && Remaining(data, w, h, fm, p, pos, images)
    requires AllPlaced(final, w, h, fm.PixelBytes(), images, p, 0, 0)
    ensures Remaining(data, w, h, fm, p + 1, pos, images[p := []])
    ensures AllPlaced(final, w, h, fm.PixelBytes(), images[p := []], p + 1, 0, 0)
  {
    hide Placed, PassW, PassH, RefRows, Flat, SizesFit;
    NextPrepend(images, p, [], RefPasses(data[pos..], w, h, fm, p + 1));
  }

  lemma NextPrepend(images: seq<seq<byte>>, p: nat, image: seq<byte>, r: Passes)
    requires p < |images|
    ensures PrependPasses(images[..p], PrependPass(image, r)) == PrependPasses(images[p := image][..p + 1], r)
  {
    if r.Passes? {
      assert images[..p] + ([image] + r.images) == images[p := image][..p + 1] + r.images;
    }
  }

  lemma FailPass(data: seq<byte>, w: nat, h: nat, fm: Format, p: nat, pos: nat, images: seq<seq<byte>>)
    requires fm.Good() && p < PASSES && !EmptyPass(p, w, h) && Remaining(data, w, h, fm, p, pos, images)
    requires !SizesFit(PassW(p, w), PassH(p, h), fm) || RefRows(data[pos..], PassW(p, w), PassH(p, h), fm).NoRows?
    ensures RefPasses(data, w, h, fm, 0).NoPasses?
  {
    hide SizesFit, RefRows, PassW, PassH, Flat;
  }

  lemma TakePass(data: seq<byte>, w: nat, h: nat, fm: Format, p: nat, pos: nat, images: seq<seq<byte>>)
    requires fm.Good() && p < PASSES && !EmptyPass(p, w, h) && Remaining(data, w, h, fm, p, pos, images)
    requires SizesFit(PassW(p, w), PassH(p, h), fm) && RefRows(data[pos..], PassW(p, w), PassH(p, h), fm).Rows?
    ensures var image := Flat(RefRows(data[pos..], PassW(p, w), PassH(p, h), fm).rows, fm, PassW(p, w));
      && |image| == PassW(p, w) * PassH(p, h) * fm.PixelBytes()
      && Remaining(data, w, h, fm, p + 1, pos + PassBytes(p, w, h, fm), images[p := image])
  {
    hide SizesFit, RefRows, PassW, PassH, Flat, PassBytes, EmptyPass;
    var x, y, rest, len := PassW(p, w), PassH(p, h), data[pos..], PassBytes(p, w, h, fm);
    var image := Flat(RefRows(rest, x, y, fm).rows, fm, x);
    PassLengths(rest, w, h, fm, p);
    assert rest[len..] == data[pos + len..];
    NextPrepend(images, p, image, RefPasses(rest[len..], w, h, fm, p + 1));
  }

  lemma PassLengths(rest: seq<byte>, w: nat, h: nat, fm: Format, p: nat)
    requires fm.Good() && p < PASSES && RefRows(rest, PassW(p, w), PassH(p, h), fm).Rows?
    ensures PassBytes(p, w, h, fm) <= |rest|
    ensures |Flat(RefRows(rest, PassW(p, w), PassH(p, h), fm).rows, fm, PassW(p, w))| == PassW(p, w) * PassH(p, h) * fm.PixelBytes()
  {
    hide RefRows, PassW, PassH, Flat, PngExpand.Times, Format.RowBytes;
    var x, y := PassW(p, w), PassH(p, h);
    FlatLength(RefRows(rest, x, y, fm).rows, fm, x);
    StrideTotal(x, y, fm.PixelBytes());
    PngExpand.TimesProduct(y, fm.RowBytes(x) + 1);
    if |rest| < PassBytes(p, w, h, fm) {
      NotEnough(rest, x, y, fm);
    }
  }

  lemma {:induction false} FlatLength(rows: seq<seq<byte>>, fm: Format, x: nat)
    requires fm.Good()
    ensures |Flat(rows, fm, x)| == |rows| * fm.Stride(x)
    decreases |rows|
  {
    hide RowOut, Format.Stride;
    if rows != [] {
      RowOutLength(rows[0], fm, x);
      FlatLength(rows[1..], fm, x);
      MulStep(|rows|, fm.Stride(x));
    }
  }
}
