/** `stbi__create_png_image_raw`: every row is unfiltered in one of two alternating buffers and
    expanded into the output. */
module PngDecode {
  import opened Widths
  import opened Bits
  import opened PngFilter
  import opened PngImage
  import opened PngExpand
  import PngPixels

  // ----- size checks -----

  predicate Mul2SizesValid(a: nat, b: nat) {
    b == 0 || a <= INT_MAX / b
  }

  predicate Mad2SizesValid(a: nat, b: nat, add: nat) {
    Mul2SizesValid(a, b) && a * b <= INT_MAX - add
  }

  predicate Mad3SizesValid(a: nat, b: nat, c: nat, add: nat) {
    Mul2SizesValid(a, b) && Mul2SizesValid(a * b, c) && a * b * c <= INT_MAX - add
  }

  /** The check by division is exact: it holds just when the product fits in an `int`. */
  lemma Mul2SizesExact(a: nat, b: nat)
    ensures Mul2SizesValid(a, b) <==> a * b <= INT_MAX
  {
    if b > 0 {
      var q, r := INT_MAX / b, INT_MAX % b;
      assert INT_MAX == b * q + r;
      if a <= q {
        MulMono(b, a, q);
      } else {
        MulMono(b, q + 1, a);
      }
    }
  }

  lemma Mad3SizesExact(a: nat, b: nat, c: nat, add: nat)
    requires c > 0
    ensures Mad3SizesValid(a, b, c, add) <==> a * b * c + add <= INT_MAX
  {
    hide Mul2SizesValid;
    Mul2SizesExact(a, b);
    Mul2SizesExact(a * b, c);
    MulMono(a * b, 1, c);
  }

  // ----- the reference for a whole image -----

  /** The image's rows, if the data holds them. */
  function RefRows(raw: seq<byte>, x: nat, y: nat, fm: Format): (r: Rows)
    requires fm.Good()
    ensures r.Rows? ==> |r.rows| == y
  {
    ReconRows(fm.Bpp(), fm.RowBytes(x), raw, Zeros(fm.RowBytes(x)), y)
  }

  lemma RefDecoded(raw: seq<byte>, x: nat, y: nat, fm: Format)
    requires fm.Good()
    ensures var r := RefRows(raw, x, y, fm);
      && (r.Rows? <==> PngPixels.Filtered(raw, PngPixels.LineBytes(x, fm.depth, fm.imgN), y))
      && (r.Rows? ==> PngPixels.Decoded(raw, x, y, fm.depth, fm.imgN, fm.outN, fm.gray, Flat(r.rows, fm, x)))
  {
    hide Flat, ReconRows, PngPixels.Filtered, PngPixels.Decoded, PngPixels.LineBytes, Format.RowBytes;
    PngPixels.ImageDecoded(raw, x, y, fm);
  }

  predicate SizesFit(x: nat, y: nat, fm: Format) {
    && x * y * fm.PixelBytes() <= 0x7FFF_FFFF
    && fm.imgN * x * fm.depth + 7 <= 0x7FFF_FFFF
    && fm.RowBytes(x) * y + fm.RowBytes(x) <= 0x7FFF_FFFF
  }

  lemma SizesWritten(x: nat, y: nat, fm: Format)
    ensures SizesFit(x, y, fm) <==> PngPixels.SizeAdmitted(x, y, fm.depth, fm.imgN, fm.outN)
  {
    assert fm.PixelBytes() == PngPixels.PixelSize(fm.depth, fm.outN);
  }

  /** Data with too few bytes for `n` rows stands for none. */
  lemma {:induction false} TooShort(bpp: nat, wb: nat, raw: seq<byte>, prior: seq<byte>, n: nat)
    requires bpp > 0 && |prior| == wb && |raw| < Times(n, wb + 1)
    ensures ReconRows(bpp, wb, raw, prior, n).NoRows?
    decreases n
  {
    hide ReconRow;
    if |raw| >= wb + 1 && raw[0] <= 4 {
      TooShort(bpp, wb, raw[wb + 1..], ReconRow(raw[0], bpp, raw[1..wb + 1], prior), n - 1);
    }
  }

  lemma NotEnough(raw: seq<byte>, x: nat, y: nat, fm: Format)
    requires fm.Good() && |raw| < Times(y, fm.RowBytes(x) + 1)
    ensures RefRows(raw, x, y, fm).NoRows?
  {
    hide Times, Format.RowBytes;
    TooShort(fm.Bpp(), fm.RowBytes(x), raw, Zeros(fm.RowBytes(x)), y);
  }

  // ----- the row loop -----

  /** Where in the buffer row `j` is reconstructed; its neighbours use the other half. */
  function Half(j: nat, wb: nat): nat {
    if j % 2 == 0 then 0 else wb
  }

  /** Before row `j`: `done` rows are expanded in `out`, the last of them is in the other half of
      the buffer, and the rows still to come are those of the remaining data. */
  ghost predicate Progress(raw: seq<byte>, x: nat, y: nat, fm: Format, buf: seq<byte>, out: seq<byte>,
                           j: nat, pos: nat, base: nat, done: seq<seq<byte>>)
    requires fm.Good()
  {
    var wb := fm.RowBytes(x);
    && j <= y && pos <= |raw| && base <= |out| && |buf| == 2 * wb
    && out[..base] == Flat(done, fm, x)
    && RefRows(raw, x, y, fm)
       == Prepend(done, ReconRows(fm.Bpp(), wb, raw[pos..], PriorOf(buf[Half(j + 1, wb)..Half(j + 1, wb) + wb], j == 0), y - j))
  }

  /** Exactly the images that the data holds are decoded, to exactly the bytes that the data stands for. */
  method CreateImageRaw(raw: seq<byte>, x: nat, y: nat, fm: Format) returns (ok: bool, out: array<byte>)
    requires fm.Good() && x > 0 && y > 0
    ensures fresh(out)
    ensures ok <==> SizesFit(x, y, fm) && RefRows(raw, x, y, fm).Rows?
    ensures ok ==> out[..] == Flat(RefRows(raw, x, y, fm).rows, fm, x)
    ensures ok <==> PngPixels.ImageHeld(raw, x, y, fm.depth, fm.imgN, fm.outN)
    ensures ok ==> PngPixels.Decoded(raw, x, y, fm.depth, fm.imgN, fm.outN, fm.gray, out[..])
  {
    hide RefRows, Flat, SizesFit, PngPixels.Filtered, PngPixels.Decoded, PngPixels.LineBytes, PngPixels.SizeAdmitted;
    ok, out := CreateRows(raw, x, y, fm);
    RefDecoded(raw, x, y, fm);
    SizesWritten(x, y, fm);
  }

  method CreateRows(raw: seq<byte>, x: nat, y: nat, fm: Format) returns (ok: bool, out: array<byte>)
    requires fm.Good() && x > 0 && y > 0
    ensures fresh(out)
    ensures ok <==> SizesFit(x, y, fm) && RefRows(raw, x, y, fm).Rows?
    ensures ok ==> out[..] == Flat(RefRows(raw, x, y, fm).rows, fm, x)
  {
    hide RefRows, Progress, Times, Flat, Mad3SizesValid, Mad2SizesValid, Format.RowBytes;
    var bytes := fm.PixelBytes();
    var wb := fm.RowBytes(x);
    Mad3SizesExact(x, y, bytes, 0);
    Mad3SizesExact(fm.imgN, x, fm.depth, 7);
    Mad2SizesExact(wb, y, wb);
    out := new byte[0];
    if !Mad3SizesValid(x, y, bytes, 0) || !Mad3SizesValid(fm.imgN, x, fm.depth, 7) || !Mad2SizesValid(wb, y, wb) {
      return false, out;
    }
    TimesProduct(y, wb + 1);
    if |raw| < (wb + 1) * y {
      NotEnough(raw, x, y, fm);
      return false, out;
    }
    var stride := fm.Stride(x);
    TimesProduct(y, stride);
    StrideTotal(x, y, bytes);
    out := new byte[x * y * bytes];
    var buf := new byte[2 * wb];
    var pos, base := 0, 0;
    ghost var done: seq<seq<byte>> := [];
    ProgressStart(raw, x, y, fm, buf[..], out[..]);
    for j := 0 to y
      invariant pos == Times(j, wb + 1) && base == Times(j, stride)
      invariant Progress(raw, x, y, fm, buf[..], out[..], j, pos, base, done)
    {
      NextPixel(j, y, wb + 1);
      NextPixel(j, y, stride);
      if raw[pos] > 4 {
        BadFilter(raw, x, y, fm, buf[..], out[..], j, pos, base, done);
        return false, out;
      }
      done := DecodeRow(raw, x, y, fm, buf, out, j, pos, base, done);
      pos, base := pos + wb + 1, base + stride;
    }
    ProgressEnd(raw, x, y, fm, buf[..], out[..], pos, base, done);
    ok := true;
  }

  lemma Mad2SizesExact(a: nat, b: nat, add: nat)
    ensures Mad2SizesValid(a, b, add) <==> a * b + add <= INT_MAX
  {
    Mul2SizesExact(a, b);
  }

  lemma StrideTotal(x: nat, y: nat, bytes: nat)
    ensures y * (x * bytes) == x * y * bytes
  {
  }

  lemma ProgressStart(raw: seq<byte>, x: nat, y: nat, fm: Format, buf: seq<byte>, out: seq<byte>)
    requires fm.Good() && |buf| == 2 * fm.RowBytes(x)
    ensures Progress(raw, x, y, fm, buf, out, 0, 0, 0, [])
  {
    hide ReconRows;
    assert raw[0..] == raw;
    var r := RefRows(raw, x, y, fm);
    if r.Rows? {
      assert [] + r.rows == r.rows;
    }
  }

  lemma BadFilter(raw: seq<byte>, x: nat, y: nat, fm: Format, buf: seq<byte>, out: seq<byte>,
                  j: nat, pos: nat, base: nat, done: seq<seq<byte>>)
    requires fm.Good() && j < y && pos < |raw| && raw[pos] > 4
    requires Progress(raw, x, y, fm, buf, out, j, pos, base, done)
    ensures RefRows(raw, x, y, fm).NoRows?
  {
    hide RefRows, Flat;
    assert raw[pos..][0] == raw[pos];
  }

  lemma ProgressEnd(raw: seq<byte>, x: nat, y: nat, fm: Format, buf: seq<byte>, out: seq<byte>,
                    pos: nat, base: nat, done: seq<seq<byte>>)
    requires fm.Good() && base == |out|
    requires Progress(raw, x, y, fm, buf, out, y, pos, base, done)
    ensures RefRows(raw, x, y, fm) == Rows(done) && out == Flat(done, fm, x)
  {
    hide RefRows, Flat;
    assert done + [] == done && out[..base] == out;
  }

  /** One row of data: unfiltered, then expanded. */
  method DecodeRow(raw: seq<byte>, x: nat, ghost y: nat, fm: Format, buf: array<byte>, out: array<byte>,
                   j: nat, pos: nat, base: nat, ghost done: seq<seq<byte>>)
    returns (ghost done': seq<seq<byte>>)
    requires fm.Good() && x > 0 && buf != out && j < y
    requires Progress(raw, x, y, fm, buf[..], out[..], j, pos, base, done)
    requires pos + fm.RowBytes(x) + 1 <= |raw| && raw[pos] <= 4
    requires base + fm.Stride(x) <= out.Length
    modifies buf, out
    ensures Progress(raw, x, y, fm, buf[..], out[..], j + 1, pos + fm.RowBytes(x) + 1, base + fm.Stride(x), done')
  {
    hide Flat, RowOut, RefRows, ReconRows, ReconRow, Format.Stride, Format.RowBytes, Format.Bpp, Progress, PriorOf;
    var wb, filter, first := fm.RowBytes(x), raw[pos], j == 0;
    var cur, prior := Half(j, wb), Half(j + 1, wb);
    ghost var buf0, out0 := buf[..], out[..];
    ProgressBuffer(raw, x, y, fm, buf[..], out[..], j, pos, base, done);
    assert buf0[prior..prior + wb] == buf[prior..prior + wb];
    BppFits(fm, x);
    UnfilterRow(buf, cur, prior, raw, pos + 1, wb, fm.Bpp(), filter, first);
    ghost var row := buf[cur..cur + wb];
    ExpandRow(buf, cur, wb, out, base, x, fm);
    done' := done + [row];
    ProgressStep(raw, x, y, fm, buf0, out0, buf[..], out[..], j, pos, base, done, row);
  }

  lemma ProgressBuffer(raw: seq<byte>, x: nat, y: nat, fm: Format, buf: seq<byte>, out: seq<byte>,
                       j: nat, pos: nat, base: nat, done: seq<seq<byte>>)
    requires fm.Good() && Progress(raw, x, y, fm, buf, out, j, pos, base, done)
    ensures |buf| == 2 * fm.RowBytes(x)
  {
  }

  lemma ProgressStep(raw: seq<byte>, x: nat, y: nat, fm: Format, buf0: seq<byte>, out0: seq<byte>, buf: seq<byte>, out: seq<byte>,
                     j: nat, pos: nat, base: nat, done: seq<seq<byte>>, row: seq<byte>)
    requires fm.Good() && x > 0 && j < y && Progress(raw, x, y, fm, buf0, out0, j, pos, base, done)
    requires pos + fm.RowBytes(x) + 1 <= |raw| && raw[pos] <= 4 && base + fm.Stride(x) <= |out| && |buf| == |buf0|
    requires var wb := fm.RowBytes(x);
      && |buf0| == 2 * wb && fm.Bpp() > 0
      && row == ReconRow(raw[pos], fm.Bpp(), raw[pos + 1..pos + 1 + wb], PriorOf(buf0[Half(j + 1, wb)..Half(j + 1, wb) + wb], j == 0))
      && buf[Half(j, wb)..Half(j, wb) + wb] == row
    requires base <= |out0| && out[..base] == out0[..base] && out[base..base + fm.Stride(x)] == RowOut(row, fm, x)
    ensures Progress(raw, x, y, fm, buf, out, j + 1, pos + fm.RowBytes(x) + 1, base + fm.Stride(x), done + [row])
  {
    hide Flat, RowOut, RefRows, ReconRows, ReconRow, Format.Stride, Format.RowBytes, Format.Bpp;
    var wb := fm.RowBytes(x);
    FlatAppend(done, row, fm, x);
    ReconFirst(fm.Bpp(), wb, raw, pos, PriorOf(buf0[Half(j + 1, wb)..Half(j + 1, wb) + wb], j == 0), y - j, done);
    assert out[..base + fm.Stride(x)] == out[..base] + out[base..base + fm.Stride(x)];
    assert Half(j + 2, wb) == Half(j, wb);
  }

  /** A pixel's filter distance fits in a row. */
  lemma BppFits(fm: Format, x: nat)
    requires fm.Good() && x > 0
    ensures 0 < fm.Bpp() <= fm.RowBytes(x)
  {
    if fm.depth >= 8 {
      WholeBytes(fm, x);
      MulMono(fm.imgN, 1, x);
    } else {
      MulMono(fm.imgN, 1, x);
      MulMono(fm.depth, 1, fm.imgN * x);
    }
  }

  lemma ReconFirst(bpp: nat, wb: nat, raw: seq<byte>, pos: nat, prior: seq<byte>, n: nat, done: seq<seq<byte>>)
    requires bpp > 0 && |prior| == wb && n > 0 && pos + wb + 1 <= |raw| && raw[pos] <= 4
    ensures var row := ReconRow(raw[pos], bpp, raw[pos + 1..pos + 1 + wb], prior);
      Prepend(done, ReconRows(bpp, wb, raw[pos..], prior, n))
      == Prepend(done + [row], ReconRows(bpp, wb, raw[pos + wb + 1..], row, n - 1))
  {
    hide ReconRow;
    var r := raw[pos..];
    assert r[1..wb + 1] == raw[pos + 1..pos + 1 + wb] && r[wb + 1..] == raw[pos + wb + 1..];
    var row := ReconRow(raw[pos], bpp, raw[pos + 1..pos + 1 + wb], prior);
    var more := ReconRows(bpp, wb, raw[pos + wb + 1..], row, n - 1);
    if more.Rows? {
      assert done + ([row] + more.rows) == (done + [row]) + more.rows;
    }
  }
}
