/** What the bytes of a decoded PNG image are, written out from the W3C PNG specification: the five filter
    types by their numbers (section 9.2), samples in a scanline (section 7.2) and in the output. */
module PngPixels {
  import opened Bits
  import JStream
  import PngFilter
  import opened PngImage
  import PngExpand

  function Distance(a: int, b: int): nat {
    if a < b then b - a else a - b
  }

  /** Byte `v` of a scanline comes from byte `d` of the data under filter type `f`, with `a` to its left,
      `b` above it and `c` above to its left. */
  predicate Undone(f: int, d: int, v: int, a: int, b: int, c: int) {
    match f
    case 0 => v == d
    case 1 => v == (d + a) % 256
    case 2 => v == (d + b) % 256
    case 3 => v == (d + (a + b) / 2) % 256
    case 4 => v == (d + Nearest(a, b, c)) % 256
    case _ => false
  }

  /** Whichever of the three is nearest to `a + b - c`; of equals the first. */
  function Nearest(a: int, b: int, c: int): int {
    var pa, pb, pc := Distance(b, c), Distance(a, c), Distance(a + b, 2 * c);
    if pa <= pb && pa <= pc then a else if pb <= pc then b else c
  }

  lemma PaethIsNearest(a: int, b: int, c: int)
    ensures PngFilter.Paeth(a, b, c) == Nearest(a, b, c)
  {
  }

  /** A whole scanline, after the scanline `prior`, with `bpp` bytes to a pixel. */
  ghost predicate RowUndone(f: int, data: seq<byte>, row: seq<byte>, prior: seq<byte>, bpp: nat) {
    |row| == |data| == |prior| && forall k :: 0 <= k < |row| ==> ByteUndone(f, data, row, prior, bpp, k)
  }

  predicate ByteUndone(f: int, data: seq<byte>, row: seq<byte>, prior: seq<byte>, bpp: nat, k: nat)
    requires k < |row| == |data| == |prior|
  {
    Undone(f, data[k], row[k], if k < bpp then 0 else row[k - bpp], prior[k], if k < bpp then 0 else prior[k - bpp])
  }

  /** All scanlines of `wb` bytes, each after its filter type. */
  ghost predicate Unfiltered(raw: seq<byte>, bpp: nat, wb: nat, prior: seq<byte>, rows: seq<seq<byte>>)
    decreases |rows|
  {
    rows != [] ==>
      && |raw| >= wb + 1 && RowUndone(raw[0], raw[1..wb + 1], rows[0], prior, bpp)
      && Unfiltered(raw[wb + 1..], bpp, wb, rows[0], rows[1..])
  }

  /** The data holds `n` scanlines, each with one of the five filter types. */
  predicate Filtered(raw: seq<byte>, wb: nat, n: nat)
    decreases n
  {
    n > 0 ==> |raw| >= wb + 1 && raw[0] <= 4 && Filtered(raw[wb + 1..], wb, n - 1)
  }

  lemma {:induction false} RowBytesUndone(f: nat, bpp: nat, raw: seq<byte>, prior: seq<byte>, n: nat)
    requires f <= 4 && bpp > 0 && n <= |raw| <= |prior|
    ensures var row := PngFilter.ReconRow(f, bpp, raw[..n], prior);
      RowUndone(f, raw[..n], row, prior[..n], bpp)
    decreases n
  {
    hide Undone;
    if n > 0 {
      var k := n - 1;
      RowBytesUndone(f, bpp, raw, prior, k);
      assert raw[..n][..k] == raw[..k] && prior[..n][..k] == prior[..k];
      var before := PngFilter.ReconRow(f, bpp, raw[..k], prior);
      var row := PngFilter.ReconRow(f, bpp, raw[..n], prior);
      OneUndone(f, bpp, raw[k], k, before, prior);
      assert row == before + [row[k]];
      RowExtends(f, raw[..n], row, prior[..n], bpp, k);
    }
  }

  lemma RowExtends(f: int, data: seq<byte>, row: seq<byte>, prior: seq<byte>, bpp: nat, k: nat)
    requires bpp > 0 && |row| == |data| == |prior| == k + 1 && RowUndone(f, data[..k], row[..k], prior[..k], bpp)
    requires ByteUndone(f, data, row, prior, bpp, k)
    ensures RowUndone(f, data, row, prior, bpp)
  {
    hide Undone;
    forall m | 0 <= m < k ensures ByteUndone(f, data, row, prior, bpp, m) {
      assert ByteUndone(f, data[..k], row[..k], prior[..k], bpp, m);
    }
  }

  lemma OneUndone(f: nat, bpp: nat, d: byte, k: nat, before: seq<byte>, prior: seq<byte>)
    requires f <= 4 && bpp > 0 && k == |before| < |prior|
    ensures Undone(f, d, PngFilter.ReconByte(d, PngFilter.Predict(f, bpp, k, before, prior)),
      if k < bpp then 0 else before[k - bpp], prior[k], if k < bpp then 0 else prior[k - bpp])
  {
    hide PngFilter.Paeth, Nearest;
    PaethIsNearest(if k < bpp then 0 else before[k - bpp], prior[k], if k < bpp then 0 else prior[k - bpp]);
  }

  lemma {:induction false} RowsUndone(raw: seq<byte>, bpp: nat, wb: nat, prior: seq<byte>, n: nat)
    requires bpp > 0 && |prior| == wb
    ensures var r := ReconRows(bpp, wb, raw, prior, n);
      (r.Rows? <==> Filtered(raw, wb, n)) && (r.Rows? ==> Unfiltered(raw, bpp, wb, prior, r.rows))
    decreases n
  {
    hide RowUndone, PngFilter.ReconRow;
    if n > 0 && |raw| >= wb + 1 && raw[0] <= 4 {
      var data := raw[1..wb + 1];
      var row := PngFilter.ReconRow(raw[0], bpp, data, prior);
      RowBytesUndone(raw[0], bpp, data, prior, wb);
      assert data[..wb] == data && prior[..wb] == prior;
      RowsUndone(raw[wb + 1..], bpp, wb, row, n - 1);
    }
  }

  /** Under filter type 1 a byte is the sum of the data bytes at its place in this and all pixels before. */
  function SumBack(data: seq<byte>, k: nat, bpp: nat): int
    requires k < |data| && bpp > 0
    decreases k
  {
    data[k] + if k < bpp then 0 else SumBack(data, k - bpp, bpp)
  }

  lemma {:induction false} SubIsSum(data: seq<byte>, row: seq<byte>, prior: seq<byte>, bpp: nat, k: nat)
    requires bpp > 0 && k < |data| && RowUndone(1, data, row, prior, bpp)
    ensures row[k] == SumBack(data, k, bpp) % 256
    decreases k
  {
    assert ByteUndone(1, data, row, prior, bpp, k);
    if k >= bpp {
      SubIsSum(data, row, prior, bpp, k - bpp);
      ModSum(data[k], SumBack(data, k - bpp, bpp));
    }
  }

  lemma ModSum(d: int, s: int)
    ensures (d + s % 256) % 256 == (d + s) % 256
  {
  }

  // ----- samples -----

  const EIGHTHS: seq<nat> := [128, 64, 32, 16, 8, 4, 2, 1]
  const QUARTERS: seq<nat> := [64, 16, 4, 1]

  /** Sample `s` of a scanline, by the bit depth. */
  function Sample(row: seq<byte>, depth: nat, s: nat): nat {
    if depth == 1 then (if s / 8 < |row| then row[s / 8] / EIGHTHS[s % 8] % 2 else 0)
    else if depth == 2 then (if s / 4 < |row| then row[s / 4] / QUARTERS[s % 4] % 4 else 0)
    else if depth == 4 then (if s / 2 < |row| then (if s % 2 == 0 then row[s / 2] / 16 else row[s / 2] % 16) else 0)
    else if depth == 8 then (if s < |row| then row[s] else 0)
    else (if 2 * s + 1 < |row| then 256 * row[2 * s] as int + row[2 * s + 1] else 0)
  }

  lemma SampleIs(row: seq<byte>, depth: nat, s: nat)
    requires (depth == 1 || depth == 2 || depth == 4 || depth == 8 || depth == 16) && (s + 1) * depth <= 8 * |row|
    ensures SampleAt(row, depth, s) == Sample(row, depth, s)
  {
    hide JStream.Msb;
    if depth == 16 {
      PngExpand.Sample16(row, s);
    } else if depth == 8 {
      JStream.MsbByte(row, s, 8);
    } else {
      LowSample(row, depth, s);
    }
  }

  lemma LowSample(row: seq<byte>, depth: nat, s: nat)
    requires (depth == 1 || depth == 2 || depth == 4) && (s + 1) * depth <= 8 * |row|
    ensures SampleAt(row, depth, s) == Sample(row, depth, s)
  {
    hide JStream.Msb, Shr, Low;
    var q, r := s * depth / 8, s * depth % 8;
    assert depth == 1 ==> q == s / 8 && r == s % 8;
    assert depth == 2 ==> q == s / 4 && r == 2 * (s % 4);
    assert depth == 4 ==> q == s / 2 && r == 4 * (s % 2);
    assert r + depth <= 8 && q < |row|;
    Pow2Values();
    JStream.MsbByteBits(row, q, row[q], r + depth);
    JStream.MsbTake(row, 8 * q, r, depth);
    if depth == 1 {
      OneOfEight(row[q], r);
    } else if depth == 2 {
      OneOfFour(row[q], s % 4);
    } else {
      OneOfTwo(row[q], s % 2);
    }
  }

  lemma OneOfEight(b: nat, r: nat)
    requires r < 8
    ensures Low(Shr(b, 7 - r), 1) == b / EIGHTHS[r] % 2
  {
    hide Low, Shr;
    Pow2Values();
    assert Pow2(0) == 1;
    ShiftsDivide(b, 7 - r, EIGHTHS[r]);
    ShiftsDivide(Shr(b, 7 - r), 1, 2);
  }

  lemma OneOfFour(b: nat, r: nat)
    requires r < 4
    ensures Low(Shr(b, 6 - 2 * r), 2) == b / QUARTERS[r] % 4
  {
    hide Low, Shr;
    Pow2Values();
    assert Pow2(0) == 1;
    ShiftsDivide(b, 6 - 2 * r, QUARTERS[r]);
    ShiftsDivide(Shr(b, 6 - 2 * r), 2, 4);
  }

  lemma OneOfTwo(b: nat, r: nat)
    requires r < 2 && b < 256
    ensures Low(Shr(b, 4 - 4 * r), 4) == if r == 0 then b / 16 else b % 16
  {
    hide Low, Shr;
    Pow2Values();
    assert Pow2(0) == 1;
    ShiftsDivide(b, 4 - 4 * r, if r == 0 then 16 else 1);
    ShiftsDivide(Shr(b, 4 - 4 * r), 4, 16);
  }

  // ----- the output -----

  /** What one step of a sample is worth in the output: gray levels are spread over 0 to 255. */
  function Worth(depth: nat, gray: bool): nat {
    if !gray then 1 else if depth == 1 then 255 else if depth == 2 then 85 else if depth == 4 then 17 else 1
  }

  /** Channel `c` of pixel `i`, of `n` channels in the scanline and `m` in the output. */
  ghost predicate Shown(row: seq<byte>, depth: nat, n: nat, m: nat, gray: bool, out: seq<byte>, i: nat, c: nat) {
    var v := if c < n then Sample(row, depth, i * n + c) * Worth(depth, gray) else if depth == 16 then 65535 else 255;
    if depth == 16 then 2 * (i * m + c) + 1 < |out| && out[2 * (i * m + c)] == v % 256 && out[2 * (i * m + c) + 1] == v / 256
    else i * m + c < |out| && out[i * m + c] == v
  }

  ghost predicate RowShown(row: seq<byte>, x: nat, depth: nat, n: nat, m: nat, gray: bool, out: seq<byte>) {
    && |out| == (if depth == 16 then 2 * (x * m) else x * m)
    && forall i, c :: 0 <= i < x && 0 <= c < m ==> Shown(row, depth, n, m, gray, out, i, c)
  }

  ghost predicate RowsShown(rows: seq<seq<byte>>, x: nat, depth: nat, n: nat, m: nat, gray: bool, out: seq<byte>)
    decreases |rows|
  {
    var s := if depth == 16 then 2 * (x * m) else x * m;
    if rows == [] then out == []
    else |out| >= s && RowShown(rows[0], x, depth, n, m, gray, out[..s]) && RowsShown(rows[1..], x, depth, n, m, gray, out[s..])
  }

  /** The largest gray sample becomes 255, and zero stays zero. */
  lemma WhiteIsWhite(depth: nat)
    requires depth == 1 || depth == 2 || depth == 4 || depth == 8
    ensures Worth(depth, true) * (Pow2(depth) - 1) == 255
  {
    Pow2Values();
  }

  lemma {:induction false} AddAlphaTimes(s: seq<byte>, n: nat, alpha: seq<byte>, x: nat, i: nat, t: nat)
    requires n > 0 && |s| == PngExpand.Times(x, n) && i < x && t < n + |alpha|
    ensures PngExpand.Times(i, n + |alpha|) + t < |AddAlpha(s, n, alpha)| && PngExpand.Times(i, n) + n <= |s|
    ensures AddAlpha(s, n, alpha)[PngExpand.Times(i, n + |alpha|) + t] == if t < n then s[PngExpand.Times(i, n) + t] else alpha[t - n]
    decreases i
  {
    hide AddAlpha, PngExpand.Times;
    TimesStep(x, n);
    AddAlphaFirst(s, n, alpha);
    if i > 0 {
      TimesStep(i, n);
      TimesStep(i, n + |alpha|);
      AddAlphaTimes(s[n..], n, alpha, x - 1, i - 1, t);
    } else {
      PngExpand.TimesProduct(0, n);
      PngExpand.TimesProduct(0, n + |alpha|);
    }
  }

  lemma TimesStep(i: nat, m: nat)
    requires i > 0
    ensures PngExpand.Times(i, m) == PngExpand.Times(i - 1, m) + m
  {
  }

  lemma AddAlphaFirst(s: seq<byte>, n: nat, alpha: seq<byte>)
    requires 0 < n <= |s|
    ensures AddAlpha(s, n, alpha) == s[..n] + alpha + AddAlpha(s[n..], n, alpha)
  {
  }

  lemma AddAlphaAt(s: seq<byte>, n: nat, alpha: seq<byte>, x: nat, i: nat, t: nat)
    requires n > 0 && |s| == x * n && i < x && t < n + |alpha|
    ensures i * (n + |alpha|) + t < |AddAlpha(s, n, alpha)| && i * n + n <= |s|
    ensures AddAlpha(s, n, alpha)[i * (n + |alpha|) + t] == if t < n then s[i * n + t] else alpha[t - n]
  {
    hide AddAlpha, PngExpand.Times;
    PngExpand.TimesProduct(x, n);
    PngExpand.TimesProduct(i, n);
    PngExpand.TimesProduct(i, n + |alpha|);
    AddAlphaTimes(s, n, alpha, x, i, t);
  }

  lemma InRow(x: nat, n: nat, i: nat, c: nat)
    requires i < x && c < n
    ensures i * n + c < x * n
  {
    MulMono(n, i + 1, x);
  }

  /** Sample `s` of the output, before any alpha is added. */
  lemma SampleShown(row: seq<byte>, fm: Format, x: nat, s: nat)
    requires fm.Good() && s < x * fm.imgN && |row| == fm.RowBytes(x)
    ensures var v := Sample(row, fm.depth, s) * Worth(fm.depth, fm.gray);
      var all := Samples(row, fm, x * fm.imgN);
      if fm.depth == 16 then 2 * s + 1 < |all| && all[2 * s] == v % 256 && all[2 * s + 1] == v / 256
      else s < |all| && all[s] == v
  {
    hide Sample, SampleAt, SampleByte, Worth, Format.RowBytes;
    Enough(fm, x, s);
    SampleIs(row, fm.depth, s);
    BytesShown(row, fm, s);
  }

  lemma Enough(fm: Format, x: nat, s: nat)
    requires s < x * fm.imgN
    ensures (s + 1) * fm.depth <= 8 * fm.RowBytes(x)
  {
    hide Format.RowBytes;
    PngExpand.EnoughBytes(fm, x, x * fm.imgN);
    MulMono(fm.depth, s + 1, x * fm.imgN);
  }

  lemma BytesShown(row: seq<byte>, fm: Format, s: nat)
    requires fm.Good() && SampleAt(row, fm.depth, s) == Sample(row, fm.depth, s)
    ensures var v := Sample(row, fm.depth, s) * Worth(fm.depth, fm.gray);
      if fm.depth == 16 then SampleByte(row, fm, 2 * s) == v % 256 && SampleByte(row, fm, 2 * s + 1) == v / 256
      else SampleByte(row, fm, s) == v
  {
    hide Sample, SampleAt, Worth, Format.Scale;
    ScaleIsWorth(fm);
    var v := Sample(row, fm.depth, s);
    if fm.depth == 16 {
      WideBytes(row, fm, s);
    } else {
      WorthFits(row, fm, s);
      ModSmall(v * Worth(fm.depth, fm.gray), 256);
    }
  }

  lemma WorthFits(row: seq<byte>, fm: Format, s: nat)
    requires fm.Good() && fm.depth != 16
    ensures Sample(row, fm.depth, s) * Worth(fm.depth, fm.gray) < 256
  {
    hide Sample;
    SampleFits(row, fm.depth, s);
  }

  lemma WideBytes(row: seq<byte>, fm: Format, s: nat)
    requires fm.depth == 16 && SampleAt(row, 16, s) == Sample(row, 16, s)
    ensures var v := Sample(row, 16, s) * Worth(16, fm.gray);
      SampleByte(row, fm, 2 * s) == v % 256 && SampleByte(row, fm, 2 * s + 1) == v / 256
  {
    hide Sample, SampleAt;
    SampleFits(row, 16, s);
    assert 2 * s % 2 == 0 && 2 * s / 2 == s && (2 * s + 1) % 2 == 1 && (2 * s + 1) / 2 == s;
  }

  lemma ScaleIsWorth(fm: Format)
    requires fm.Good()
    ensures fm.Scale() == Worth(fm.depth, fm.gray)
  {
  }

  lemma SampleFits(row: seq<byte>, depth: nat, s: nat)
    ensures depth == 1 ==> Sample(row, depth, s) <= 1
    ensures depth == 2 ==> Sample(row, depth, s) <= 3
    ensures depth == 4 ==> Sample(row, depth, s) <= 15
    ensures depth == 8 ==> Sample(row, depth, s) <= 255
    ensures Sample(row, depth, s) <= 65535
  {
  }

  lemma ChannelShown(row: seq<byte>, fm: Format, x: nat, i: nat, c: nat)
    requires fm.Good() && i < x && c < fm.outN && |row| == fm.RowBytes(x)
    ensures Shown(row, fm.depth, fm.imgN, fm.outN, fm.gray, RowOut(row, fm, x), i, c)
  {
    hide Sample, Samples, Worth, AddAlpha, Format.RowBytes;
    if c < fm.imgN {
      InRow(x, fm.imgN, i, c);
      SampleShown(row, fm, x, i * fm.imgN + c);
    }
    if fm.outN > fm.imgN {
      if fm.depth == 16 { WithAlpha16(row, fm, x, i, c); } else { WithAlpha(row, fm, x, i, c); }
    }
  }

  /** Channel `c` among the samples with alpha. */
  lemma WithAlpha(row: seq<byte>, fm: Format, x: nat, i: nat, c: nat)
    requires fm.Good() && fm.outN == fm.imgN + 1 && i < x && c < fm.outN && fm.depth != 16
    ensures var all, out := Samples(row, fm, x * fm.imgN), RowOut(row, fm, x);
      var at, from := i * fm.outN + c, i * fm.imgN + c;
      && at < |out| && (c < fm.imgN ==> from < |all|)
      && out[at] == if c < fm.imgN then all[from] else 255
  {
    hide Samples, AddAlpha;
    AddAlphaAt(Samples(row, fm, x * fm.imgN), fm.imgN, [255], x, i, c);
  }

  lemma AddAlphaPair(s: seq<byte>, n: nat, x: nat, i: nat, c: nat)
    requires n > 0 && n % 2 == 0 && |s| == x * n && i < x && 2 * c <= n
    ensures var r, at, from := AddAlpha(s, n, [255, 255]), i * (n + 2) + 2 * c, i * n + 2 * c;
      && at + 1 < |r| && (2 * c < n ==> from + 1 < |s|)
      && r[at] == (if 2 * c < n then s[from] else 255)
      && r[at + 1] == (if 2 * c < n then s[from + 1] else 255)
  {
    hide AddAlpha;
    AddAlphaAt(s, n, [255, 255], x, i, 2 * c);
    AddAlphaAt(s, n, [255, 255], x, i, 2 * c + 1);
  }

  lemma WithAlpha16(row: seq<byte>, fm: Format, x: nat, i: nat, c: nat)
    requires fm.Good() && fm.outN == fm.imgN + 1 && i < x && c < fm.outN && fm.depth == 16
    ensures var all, out := Samples(row, fm, x * fm.imgN), RowOut(row, fm, x);
      var at, from := i * fm.outN + c, i * fm.imgN + c;
      && 2 * at + 1 < |out| && (c < fm.imgN ==> 2 * from + 1 < |all|)
      && out[2 * at] == (if c < fm.imgN then all[2 * from] else 255)
      && out[2 * at + 1] == (if c < fm.imgN then all[2 * from + 1] else 255)
  {
    hide Samples, AddAlpha;
    Associate(x, fm.imgN, 2);
    Doubled(i, fm.imgN, c);
    AddAlphaPair(Samples(row, fm, x * fm.imgN), fm.imgN * 2, x, i, c);
  }

  lemma Doubled(i: nat, n: nat, c: nat)
    ensures 2 * (i * (n + 1) + c) == i * (n * 2 + 2) + 2 * c && 2 * (i * n + c) == i * (n * 2) + 2 * c
  {
  }

  lemma Associate(a: nat, b: nat, n: nat)
    ensures (a * b) * n == a * (b * n)
  {
  }

  lemma RowOutShown(row: seq<byte>, fm: Format, x: nat)
    requires fm.Good() && |row| == fm.RowBytes(x)
    ensures RowShown(row, x, fm.depth, fm.imgN, fm.outN, fm.gray, RowOut(row, fm, x))
    ensures |RowOut(row, fm, x)| == if fm.depth == 16 then 2 * (x * fm.outN) else x * fm.outN
  {
    hide Shown, RowOut, Format.RowBytes;
    RowOutLength(row, fm, x);
    Associate(x, fm.outN, fm.Bytes());
    forall i, c | 0 <= i < x && 0 <= c < fm.outN ensures Shown(row, fm.depth, fm.imgN, fm.outN, fm.gray, RowOut(row, fm, x), i, c) {
      ChannelShown(row, fm, x, i, c);
    }
  }

  lemma {:induction false} FlatShown(rows: seq<seq<byte>>, fm: Format, x: nat)
    requires fm.Good() && forall j :: 0 <= j < |rows| ==> |rows[j]| == fm.RowBytes(x)
    ensures RowsShown(rows, x, fm.depth, fm.imgN, fm.outN, fm.gray, Flat(rows, fm, x))
    decreases |rows|
  {
    hide RowShown, RowOut, Format.RowBytes;
    if rows != [] {
      RowOutShown(rows[0], fm, x);
      FlatShown(rows[1..], fm, x);
      var head, tail := RowOut(rows[0], fm, x), Flat(rows[1..], fm, x);
      assert (head + tail)[..|head|] == head && (head + tail)[|head|..] == tail;
    }
  }

  // ----- whole images -----

  /** The bytes of a scanline, and those of a pixel as the filters see it. */
  function LineBytes(x: nat, depth: nat, n: nat): nat {
    (n * x * depth + 7) / 8
  }

  function LeftBytes(depth: nat, n: nat): nat {
    if depth < 8 then 1 else if depth == 8 then n else 2 * n
  }

  /** The bytes of a pixel in the output. */
  function PixelSize(depth: nat, m: nat): nat {
    if depth == 16 then 2 * m else m
  }

  /** What the decoder's size checks admit. */
  predicate SizeAdmitted(x: nat, y: nat, depth: nat, n: nat, m: nat) {
    && x * y * PixelSize(depth, m) <= 0x7FFF_FFFF
    && n * x * depth + 7 <= 0x7FFF_FFFF
    && LineBytes(x, depth, n) * y + LineBytes(x, depth, n) <= 0x7FFF_FFFF
  }

  predicate ImageHeld(raw: seq<byte>, x: nat, y: nat, depth: nat, n: nat, m: nat) {
    SizeAdmitted(x, y, depth, n, m) && Filtered(raw, LineBytes(x, depth, n), y)
  }

  /** The image `out` of `x` by `y` pixels, with `m` channels, is what the filtered data of `n` channels
      stands for. */
  ghost predicate Decoded(raw: seq<byte>, x: nat, y: nat, depth: nat, n: nat, m: nat, gray: bool, out: seq<byte>) {
    var wb := LineBytes(x, depth, n);
    exists rows :: |rows| == y && Unfiltered(raw, LeftBytes(depth, n), wb, seq(wb, _ => 0), rows)
      && RowsShown(rows, x, depth, n, m, gray, out)
  }

  lemma {:induction false} RowLengths(bpp: nat, wb: nat, raw: seq<byte>, prior: seq<byte>, n: nat)
    requires bpp > 0 && |prior| == wb
    ensures var r := ReconRows(bpp, wb, raw, prior, n);
      r.Rows? ==> forall j :: 0 <= j < n ==> |r.rows[j]| == wb
    decreases n
  {
    hide PngFilter.ReconRow;
    if n > 0 && |raw| >= wb + 1 && raw[0] <= 4 {
      RowLengths(bpp, wb, raw[wb + 1..], PngFilter.ReconRow(raw[0], bpp, raw[1..wb + 1], prior), n - 1);
    }
  }

  /** The reference decodes exactly the data that holds all scanlines, to that image. */
  lemma ImageDecoded(raw: seq<byte>, x: nat, y: nat, fm: Format)
    requires fm.Good()
    ensures var r := ReconRows(fm.Bpp(), fm.RowBytes(x), raw, PngFilter.Zeros(fm.RowBytes(x)), y);
      && (r.Rows? <==> Filtered(raw, LineBytes(x, fm.depth, fm.imgN), y))
      && (r.Rows? ==> Decoded(raw, x, y, fm.depth, fm.imgN, fm.outN, fm.gray, Flat(r.rows, fm, x)))
  {
    hide ReconRows, Unfiltered, RowsShown, Filtered, Flat;
    var wb := fm.RowBytes(x);
    var prior := PngFilter.Zeros(wb);
    RowsUndone(raw, fm.Bpp(), wb, prior, y);
    RowLengths(fm.Bpp(), wb, raw, prior, y);
    var r := ReconRows(fm.Bpp(), wb, raw, prior, y);
    if r.Rows? {
      FlatShown(r.rows, fm, x);
      assert prior == seq(wb, _ => 0);
    }
  }

  // ----- interlaced images -----

  /** The first column and row of each of the seven passes, and the steps between its columns and rows
      (section 8.2 of the W3C PNG specification). */
  const COLUMN: seq<nat> := [0, 4, 0, 2, 0, 1, 0]
  const COLUMN_STEP: seq<nat> := [8, 8, 4, 4, 2, 2, 1]
  const LINE: seq<nat> := [0, 0, 4, 0, 2, 0, 1]
  const LINE_STEP: seq<nat> := [8, 8, 8, 4, 4, 2, 2]

  function Columns(p: nat, w: nat): nat
    requires p < 7
  {
    (w + COLUMN_STEP[p] - 1 - COLUMN[p]) / COLUMN_STEP[p]
  }

  function Lines(p: nat, h: nat): nat
    requires p < 7
  {
    (h + LINE_STEP[p] - 1 - LINE[p]) / LINE_STEP[p]
  }

  /** The passes from `p` on as the data holds them, one after another; those without pixels take none. */
  ghost predicate PassesDecoded(raw: seq<byte>, w: nat, h: nat, depth: nat, n: nat, m: nat, gray: bool, images: seq<seq<byte>>, p: nat)
    requires |images| == 7 && p <= 7
    decreases 7 - p
  {
    if p == 7 then true
    else if Columns(p, w) == 0 || Lines(p, h) == 0 then PassesDecoded(raw, w, h, depth, n, m, gray, images, p + 1)
    else
      var size := (LineBytes(Columns(p, w), depth, n) + 1) * Lines(p, h);
      && Decoded(raw, Columns(p, w), Lines(p, h), depth, n, m, gray, images[p])
      && size <= |raw| && PassesDecoded(raw[size..], w, h, depth, n, m, gray, images, p + 1)
  }

  /** The data holds all passes from `p` on. */
  predicate PassesHeld(raw: seq<byte>, w: nat, h: nat, depth: nat, n: nat, m: nat, p: nat)
    requires p <= 7
    decreases 7 - p
  {
    if p == 7 then true
    else if Columns(p, w) == 0 || Lines(p, h) == 0 then PassesHeld(raw, w, h, depth, n, m, p + 1)
    else
      var size := (LineBytes(Columns(p, w), depth, n) + 1) * Lines(p, h);
      && ImageHeld(raw, Columns(p, w), Lines(p, h), depth, n, m)
      && size <= |raw| && PassesHeld(raw[size..], w, h, depth, n, m, p + 1)
  }

  predicate InterlacedHeld(raw: seq<byte>, w: nat, h: nat, depth: nat, n: nat, m: nat) {
    w * h * PixelSize(depth, m) <= 0x7FFF_FFFF && PassesHeld(raw, w, h, depth, n, m, 0)
  }

  /** Where pixel `(x, y)` lies in rows of `w` pixels of `b` bytes. */
  function Place(w: nat, b: nat, x: nat, y: nat): nat {
    (y * w + x) * b
  }

  /** The `b` bytes of pixel `(i, j)` of pass `p` are at their place in the image. */
  ghost predicate InItsPlace(out: seq<byte>, w: nat, b: nat, pass: seq<byte>, p: nat, i: nat, j: nat)
    requires p < 7
  {
    var to := Place(w, b, i * COLUMN_STEP[p] + COLUMN[p], j * LINE_STEP[p] + LINE[p]);
    var from := Place(Columns(p, w), b, i, j);
    to + b <= |out| && from + b <= |pass| && out[to..to + b] == pass[from..from + b]
  }

  /** The whole interlaced image. */
  ghost predicate Interlaced(raw: seq<byte>, w: nat, h: nat, depth: nat, n: nat, m: nat, gray: bool, out: seq<byte>) {
    exists images :: |images| == 7 && PassesDecoded(raw, w, h, depth, n, m, gray, images, 0)
      && forall p, i, j :: 0 <= p < 7 && 0 <= i < Columns(p, w) && 0 <= j < Lines(p, h) ==>
        InItsPlace(out, w, PixelSize(depth, m), images[p], p, i, j)
  }
}
