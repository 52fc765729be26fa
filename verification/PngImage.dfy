/** From inflated PNG data to image bytes: `stbi__create_png_image_raw`.  The reference is the W3C
    PNG specification: scanlines are filtered rows (section 9), samples are packed into them most
    significant bit first (section 7.2). */
module PngImage {
  import opened Bits
  import JStream
  import PngFilter

  /** Bit depth, channels in the file, channels wanted, and whether the image is grayscale. */
  datatype Format = Format(depth: nat, imgN: nat, outN: nat, gray: bool) {
    predicate Good() {
      && (depth == 1 || depth == 2 || depth == 4 || depth == 8 || depth == 16)
      && 1 <= imgN <= 4
      && (outN == imgN || (outN == imgN + 1 && (imgN == 1 || imgN == 3)))
    }

    /** Bytes per sample of the output. */
    function Bytes(): (b: nat)
      ensures 1 <= b <= 2
    {
      if depth == 16 then 2 else 1
    }

    /** `filter_bytes`: how far back a filter looks. */
    function Bpp(): nat {
      if depth < 8 then 1 else imgN * Bytes()
    }

    /** `img_width_bytes`: the bytes of a scanline of `x` pixels. */
    function RowBytes(x: nat): nat {
      (imgN * x * depth + 7) / 8
    }

    /** The bytes of a pixel of the output. */
    function PixelBytes(): nat {
      outN * Bytes()
    }

    /** The bytes of a row of the output. */
    function Stride(x: nat): nat {
      x * PixelBytes()
    }

    /** Low-depth gray levels are spread over 0..255. */
    function Scale(): nat {
      if depth < 8 && gray then (if depth == 1 then 0xFF else if depth == 2 then 0x55 else 0x11) else 1
    }

    function Alpha(): (a: seq<byte>)
      ensures |a| == Bytes()
    {
      if depth == 16 then [255, 255] else [255]
    }
  }

  // ----- the reference -----

  /** Sample `i` of a scanline. */
  function SampleAt(row: seq<byte>, depth: nat, i: nat): nat {
    JStream.Msb(row, i * depth, depth)
  }

  /** Byte `k` of the samples in the output; 16-bit samples are stored low byte first. */
  function SampleByte(row: seq<byte>, fm: Format, k: nat): byte {
    if fm.depth != 16 then fm.Scale() * SampleAt(row, fm.depth, k) % 256
    else if k % 2 == 0 then SampleAt(row, 16, k / 2) % 256
    else SampleAt(row, 16, k / 2) / 256 % 256
  }

  /** The first `n` samples as output bytes. */
  function Samples(row: seq<byte>, fm: Format, n: nat): (s: seq<byte>)
    ensures |s| == n * fm.Bytes()
  {
    seq(n * fm.Bytes(), k requires 0 <= k => SampleByte(row, fm, k))
  }

  /** `alpha` added after every `n` bytes. */
  function AddAlpha(s: seq<byte>, n: nat, alpha: seq<byte>): (r: seq<byte>)
    requires n > 0
    decreases |s|
  {
    if |s| < n then [] else s[..n] + alpha + AddAlpha(s[n..], n, alpha)
  }

  /** What a reconstructed scanline of `x` pixels becomes in the output. */
  function RowOut(row: seq<byte>, fm: Format, x: nat): (r: seq<byte>)
    requires fm.Good()
  {
    var s := Samples(row, fm, x * fm.imgN);
    if fm.outN == fm.imgN then s else AddAlpha(s, fm.imgN * fm.Bytes(), fm.Alpha())
  }

  function Flat(rows: seq<seq<byte>>, fm: Format, x: nat): seq<byte>
    requires fm.Good()
  {
    if rows == [] then [] else RowOut(rows[0], fm, x) + Flat(rows[1..], fm, x)
  }

  datatype Rows = NoRows | Rows(rows: seq<seq<byte>>)

  /** The `n` rows of `wb` bytes that filtered data stands for, each after its filter byte. */
  function ReconRows(bpp: nat, wb: nat, raw: seq<byte>, prior: seq<byte>, n: nat): (r: Rows)
    requires bpp > 0 && |prior| == wb
    ensures r.Rows? ==> |r.rows| == n
    decreases n
  {
    if n == 0 then Rows([])
    else if |raw| < wb + 1 || raw[0] > 4 then NoRows
    else
      var row := PngFilter.ReconRow(raw[0], bpp, raw[1..wb + 1], prior);
      Prepend([row], ReconRows(bpp, wb, raw[wb + 1..], row, n - 1))
  }

  function Prepend(first: seq<seq<byte>>, r: Rows): Rows {
    if r.NoRows? then NoRows else Rows(first + r.rows)
  }

  // ----- encoding, and the round trip -----

  /** The filtered data of an image's rows, under any choice of a filter for each row. */
  function EncodeRows(bpp: nat, rows: seq<seq<byte>>, filters: seq<nat>, prior: seq<byte>): seq<byte>
    requires bpp > 0 && |filters| == |rows|
    requires forall k :: 0 <= k < |rows| ==> |rows[k]| == |prior| && filters[k] <= 4
    decreases |rows|
  {
    if rows == [] then []
    else [filters[0]] + PngFilter.FilterRow(filters[0], bpp, rows[0], prior) + EncodeRows(bpp, rows[1..], filters[1..], rows[0])
  }

  /** Reconstruction returns every image, from every choice of filters, whatever data follows. */
  lemma {:induction false} ReconEncoded(bpp: nat, rows: seq<seq<byte>>, filters: seq<nat>, prior: seq<byte>, rest: seq<byte>)
    requires bpp > 0 && |filters| == |rows|
    requires forall k :: 0 <= k < |rows| ==> |rows[k]| == |prior| && filters[k] <= 4
    ensures ReconRows(bpp, |prior|, EncodeRows(bpp, rows, filters, prior) + rest, prior, |rows|) == Rows(rows)
    decreases |rows|
  {
    hide PngFilter.FilterRow, PngFilter.ReconRow;
    if rows != [] {
      var f, row, wb := filters[0], rows[0], |prior|;
      var enc := PngFilter.FilterRow(f, bpp, row, prior);
      var more := EncodeRows(bpp, rows[1..], filters[1..], row);
      var raw := EncodeRows(bpp, rows, filters, prior) + rest;
      assert raw == [f] + enc + (more + rest);
      assert raw[1..wb + 1] == enc == enc[..wb] && raw[wb + 1..] == more + rest;
      PngFilter.ReconFilter(f, bpp, row, prior, wb);
      assert row[..wb] == row;
      ReconEncoded(bpp, rows[1..], filters[1..], row, rest);
      assert [row] + rows[1..] == rows;
    }
  }

  lemma {:induction false} EncodedLength(bpp: nat, rows: seq<seq<byte>>, filters: seq<nat>, prior: seq<byte>)
    requires bpp > 0 && |filters| == |rows|
    requires forall k :: 0 <= k < |rows| ==> |rows[k]| == |prior| && filters[k] <= 4
    ensures |EncodeRows(bpp, rows, filters, prior)| == |rows| * (|prior| + 1)
    decreases |rows|
  {
    if rows != [] {
      EncodedLength(bpp, rows[1..], filters[1..], rows[0]);
      MulStep(|rows|, |prior| + 1);
    }
  }

  lemma MulStep(a: nat, b: nat)
    requires a > 0
    ensures a * b == (a - 1) * b + b
  {
  }

  // ----- lengths -----

  lemma {:induction false} AddAlphaLength(s: seq<byte>, n: nat, alpha: seq<byte>, x: nat)
    requires n > 0 && |s| == x * n
    ensures |AddAlpha(s, n, alpha)| == x * (n + |alpha|)
    decreases x
  {
    if x > 0 {
      MulStep(x, n);
      MulStep(x, n + |alpha|);
      AddAlphaLength(s[n..], n, alpha, x - 1);
    }
  }

  lemma RowOutLength(row: seq<byte>, fm: Format, x: nat)
    requires fm.Good()
    ensures |RowOut(row, fm, x)| == fm.Stride(x)
  {
    hide Samples, AddAlpha;
    var n := fm.imgN * fm.Bytes();
    assert x * fm.imgN * fm.Bytes() == x * n;
    if fm.outN != fm.imgN {
      AddAlphaLength(Samples(row, fm, x * fm.imgN), n, fm.Alpha(), x);
    }
  }

  lemma {:induction false} FlatAppend(rows: seq<seq<byte>>, row: seq<byte>, fm: Format, x: nat)
    requires fm.Good()
    ensures Flat(rows + [row], fm, x) == Flat(rows, fm, x) + RowOut(row, fm, x)
    decreases |rows|
  {
    hide RowOut;
    if rows == [] {
      assert ([row])[1..] == [];
    } else {
      assert (rows + [row])[1..] == rows[1..] + [row];
      FlatAppend(rows[1..], row, fm, x);
    }
  }
}
