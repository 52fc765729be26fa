/** The second half of the row loop of `stbi__create_png_image_raw`: a reconstructed scanline is
    turned into output samples, with an opaque alpha channel added if wanted. */
module PngExpand {
  import opened Widths
  import opened Bits
  import opened JStream
  import opened PngImage

  // ----- samples of less than eight bits -----

  /** Samples of `depth` bits in a byte. */
  function PerByte(depth: nat): (m: nat)
    ensures m > 0
  {
    if depth == 1 then 8 else if depth == 2 then 4 else 2
  }

  /** Bits left in a byte after `r` of its samples have been taken. */
  function UnreadOf(r: nat, depth: nat): int {
    if r == 0 then 0 else 8 - depth * r
  }

  function Unread(i: nat, depth: nat): int {
    UnreadOf(i % PerByte(depth), depth)
  }

  /** Bits are fetched exactly when none are unread, and every sample takes `depth` of them. */
  lemma UnreadStep(i: nat, depth: nat)
    requires depth == 1 || depth == 2 || depth == 4
    ensures (i % PerByte(depth) == 0) == (Unread(i, depth) == 0)
    ensures Unread(i + 1, depth) == (if Unread(i, depth) == 0 then 8 else Unread(i, depth)) - depth
    ensures 0 <= Unread(i, depth) < 8 && (Unread(i, depth) != 0 ==> depth <= Unread(i, depth))
  {
    hide PerByte, UnreadOf;
    var m := PerByte(depth);
    if i % m + 1 < m {
      NextMod(i, m);
    } else {
      LastMod(i, m);
    }
    UnreadOfStep(i % m, m, depth);
  }

  lemma UnreadOfStep(r: nat, m: nat, depth: nat)
    requires (depth == 1 || depth == 2 || depth == 4) && m == PerByte(depth) && r < m
    ensures (r == 0) == (UnreadOf(r, depth) == 0)
    ensures UnreadOf(if r + 1 < m then r + 1 else 0, depth) == (if r == 0 then 8 else UnreadOf(r, depth)) - depth
    ensures 0 <= UnreadOf(r, depth) < 8 && (r != 0 ==> depth <= UnreadOf(r, depth))
  {
  }

  lemma NextMod(i: nat, m: nat)
    requires m > 0 && i % m + 1 < m
    ensures (i + 1) % m == i % m + 1
  {
    DivModUnique(i + 1, m, i / m, i % m + 1);
  }

  lemma LastMod(i: nat, m: nat)
    requires m > 0 && i % m + 1 == m
    ensures (i + 1) % m == 0
  {
    assert i + 1 == m * (i / m) + i % m + 1 == m * (i / m + 1);
    DivModUnique(i + 1, m, i / m + 1, 0);
  }

  /** `inb` holds the `bits` stream bits from `pos` at its top. */
  ghost predicate Held(row: seq<byte>, pos: nat, bits: int, inb: nat) {
    0 <= bits <= 8 && inb == Shl(Msb(row, pos, bits), BYTE_BITS - bits)
  }

  lemma Fetch(row: seq<byte>, src: nat)
    requires src < |row|
    ensures Held(row, 8 * src, 8, row[src])
  {
    hide Msb, Shl;
    MsbByte(row, src, BYTE_BITS);
    ShlNone(row[src]);
  }

  lemma Take(row: seq<byte>, pos: nat, bits: nat, inb: nat, depth: nat)
    requires Held(row, pos, bits, inb) && depth <= bits
    ensures Shr(inb, BYTE_BITS - depth) == Msb(row, pos, depth)
    ensures Held(row, pos + depth, bits - depth, Low(Shl(inb, depth), BYTE_BITS))
  {
    hide Msb, Shl, Shr, Low;
    TopBits(BYTE_BITS, row, pos, bits, depth);
    DropBits(BYTE_BITS, row, pos, bits, depth);
  }

  /** The three loops that take samples off the top of a byte, one per depth. */
  method UnpackBits(buf: array<byte>, cur: nat, ghost wb: nat, out: array<byte>, base: nat, n: nat, fm: Format)
    requires fm.Good() && fm.depth < 8 && buf != out
    requires cur + wb <= buf.Length && base + n <= out.Length && n * fm.depth <= 8 * wb
    modifies out
    ensures out[base..base + n] == Samples(buf[cur..cur + wb], fm, n)
    ensures out[..base] == old(out[..base])
  {
    hide Msb, Shl, Shr, Low, Unread, PerByte, Held, Format.Scale;
    var depth, scale := fm.depth, fm.Scale();
    ghost var row := buf[cur..cur + wb];
    var src, inb: nat := 0, 0;
    NothingHeld(row, depth);
    for i := 0 to n
      invariant src <= wb && 0 <= Unread(i, depth) && i * depth + Unread(i, depth) == 8 * src
      invariant Held(row, i * depth, Unread(i, depth), inb)
      invariant out[..base] == old(out[..base])
      invariant forall k :: 0 <= k < i ==> out[base + k] == SampleByte(row, fm, k)
    {
      ghost var pos, bits := i * depth, Unread(i, depth);
      UnreadStep(i, depth);
      MulStep(i + 1, depth);
      MulMono(depth, i + 1, n);
      if i % PerByte(depth) == 0 {
        inb := buf[cur + src];
        Fetch(row, src);
        src := src + 1;
        bits := 8;
      }
      Take(row, pos, bits, inb, depth);
      out[base + i] := scale * Shr(inb, BYTE_BITS - depth) % 256;
      inb := Low(Shl(inb, depth), BYTE_BITS);
    }
  }

  lemma NothingHeld(row: seq<byte>, depth: nat)
    ensures Unread(0, depth) == 0 && Held(row, 0, 0, 0)
  {
    hide PerByte;
    ModSmall(0, PerByte(depth));
    ShrZero(BYTE_BITS);
  }

  lemma ShlNone(x: nat)
    ensures Shl(x, 0) == x
  {
  }

  // ----- adding alpha -----

  lemma AddAlphaStep(s: seq<byte>, n: nat, alpha: seq<byte>, k: nat)
    requires n > 0 && k + n <= |s|
    ensures AddAlpha(s[k..], n, alpha) == s[k..k + n] + alpha + AddAlpha(s[k + n..], n, alpha)
  {
    assert s[k..][..n] == s[k..k + n] && s[k..][n..] == s[k + n..];
  }

  /** The bytes of `t` from `k` on are expanded at `lo` of `dest`, and those before `k` are still
      to be read at `s` of `src`. */
  ghost predicate Backward(dest: seq<byte>, lo: nat, hi: nat, src: seq<byte>, s: nat, k: nat, n: nat, t: seq<byte>) {
    && n > 0 && k <= |t| && s + k <= |src| && lo <= hi <= |dest|
    && src[s..s + k] == t[..k]
    && dest[lo..hi] == AddAlpha(t[k..], n, [255])
  }

  /** `stbi__create_png_alpha_expand8`: from the last pixel to the first, so that source and
      destination may be the same place. */
  method AlphaExpand8(dest: array<byte>, d: nat, src: array<byte>, s: nat, x: nat, n: nat)
    requires (n == 1 || n == 3) && (src == dest ==> s == d)
    requires d + x * n + x <= dest.Length && s + x * n <= src.Length
    modifies dest
    ensures dest[d..d + x * n + x] == AddAlpha(old(src[s..s + x * n]), n, [255])
    ensures dest[..d] == old(dest[..d])
  {
    hide AddAlpha, Backward;
    ghost var t, hi := src[s..s + x * n], d + x * n + x;
    BackwardStart(dest[..], hi, src[..], s, n, t);
    ghost var prefix := dest[..d];
    var i := x;
    while i > 0
      invariant 0 <= i <= x
      invariant Backward(dest[..], d + i * n + i, hi, src[..], s, i * n, n, t)
      invariant dest[..d] == prefix
    {
      MulStep(i, n);
      i := i - 1;
      ExpandPixel(dest, d + i * n + i, hi, src, s, i * n, n, t, d);
    }
    BackwardEnd(dest[..], d, hi, src[..], s, n, t);
  }

  lemma BackwardStart(dest: seq<byte>, hi: nat, src: seq<byte>, s: nat, n: nat, t: seq<byte>)
    requires n > 0 && hi <= |dest| && s + |t| <= |src| && t == src[s..s + |t|]
    ensures Backward(dest, hi, hi, src, s, |t|, n, t)
  {
    assert t[|t|..] == [];
  }

  lemma BackwardEnd(dest: seq<byte>, lo: nat, hi: nat, src: seq<byte>, s: nat, n: nat, t: seq<byte>)
    requires Backward(dest, lo, hi, src, s, 0, n, t)
    ensures dest[lo..hi] == AddAlpha(t, n, [255])
  {
    assert t[0..] == t;
  }

  method ExpandPixel(dest: array<byte>, lo: nat, ghost hi: nat, src: array<byte>, s: nat, k: nat, n: nat, ghost t: seq<byte>, ghost d: nat)
    requires d <= lo && (n == 1 || n == 3) && (src == dest ==> s + k <= lo)
    requires Backward(dest[..], lo + n + 1, hi, src[..], s, k + n, n, t)
    modifies dest
    ensures Backward(dest[..], lo, hi, src[..], s, k, n, t)
    ensures dest[..d] == old(dest[..d])
  {
    BackwardBounds(dest[..], lo + n + 1, hi, src[..], s, k + n, n, t);
    hide AddAlpha, Backward;
    ghost var was, from := dest[..], src[..];
    if n == 1 {
      GrayPixel(dest, lo, src, s + k);
    } else {
      ColourPixel(dest, lo, src, s + k);
    }
    BackwardStep(was, dest[..], lo, hi, from, s, k, n, t);
    if src == dest {
      SamePrefix(was, dest[..], lo, s, s + k);
    }
    BackwardSource(dest[..], lo, hi, from, src[..], s, k, n, t);
    SamePrefix(was, dest[..], lo, 0, d);
  }

  lemma BackwardBounds(dest: seq<byte>, lo: nat, hi: nat, src: seq<byte>, s: nat, k: nat, n: nat, t: seq<byte>)
    requires Backward(dest, lo, hi, src, s, k, n, t)
    ensures n > 0 && k <= |t| && s + k <= |src| && lo <= hi <= |dest|
  {
  }

  /** Only the part of the source that is still to be read matters. */
  lemma BackwardSource(dest: seq<byte>, lo: nat, hi: nat, from: seq<byte>, src: seq<byte>, s: nat, k: nat, n: nat, t: seq<byte>)
    requires Backward(dest, lo, hi, from, s, k, n, t) && s + k <= |from| && s + k <= |src| && src[s..s + k] == from[s..s + k]
    ensures Backward(dest, lo, hi, src, s, k, n, t)
  {
    hide AddAlpha;
  }

  lemma SamePrefix(a: seq<byte>, b: seq<byte>, m: nat, lo: nat, hi: nat)
    requires lo <= hi <= m <= |a| && m <= |b| && a[..m] == b[..m]
    ensures a[lo..hi] == b[lo..hi]
  {
    assert a[lo..hi] == a[..m][lo..hi] && b[lo..hi] == b[..m][lo..hi];
  }

  lemma BackwardStep(a: seq<byte>, b: seq<byte>, lo: nat, hi: nat, src: seq<byte>, s: nat, k: nat, n: nat, t: seq<byte>)
    requires Backward(a, lo + n + 1, hi, src, s, k + n, n, t)
    requires b == a[..lo] + (src[s + k..s + k + n] + [255]) + a[lo + n + 1..]
    ensures Backward(b, lo, hi, src, s, k, n, t) && b[..lo] == a[..lo]
  {
    hide AddAlpha;
    LastPixel(src, s, t, k, n);
    AddAlphaStep(t, n, [255], k);
    Replaced(a, b, lo, t[k..k + n] + [255], hi);
  }

  lemma LastPixel(a: seq<byte>, s: nat, t: seq<byte>, k: nat, n: nat)
    requires s + k + n <= |a| && k + n <= |t| && a[s..s + k + n] == t[..k + n]
    ensures a[s + k..s + k + n] == t[k..k + n] && a[s..s + k] == t[..k]
  {
    assert a[s + k..s + k + n] == a[s..s + k + n][k..] && t[k..k + n] == t[..k + n][k..];
    assert a[s..s + k] == a[s..s + k + n][..k] && t[..k] == t[..k + n][..k];
  }

  lemma Replaced(a: seq<byte>, b: seq<byte>, at: nat, v: seq<byte>, hi: nat)
    requires at + |v| <= hi <= |a| && b == a[..at] + v + a[at + |v|..]
    ensures b[at..hi] == v + a[at + |v|..hi] && b[..at] == a[..at]
  {
  }

  method GrayPixel(dest: array<byte>, d: nat, src: array<byte>, s: nat)
    requires d + 2 <= dest.Length && s + 1 <= src.Length && (src == dest ==> s <= d)
    modifies dest
    ensures dest[..] == old(dest[..d]) + (old(src[s..s + 1]) + [255]) + old(dest[d + 2..])
  {
    dest[d + 1] := 255;
    dest[d] := src[s];
  }

  /** One colour pixel, written from its last byte to its first. */
  method ColourPixel(dest: array<byte>, d: nat, src: array<byte>, s: nat)
    requires d + 4 <= dest.Length && s + 3 <= src.Length && (src == dest ==> s <= d)
    modifies dest
    ensures dest[..] == old(dest[..d]) + (old(src[s..s + 3]) + [255]) + old(dest[d + 4..])
  {
    ghost var was, pixel := dest[..], src[s..s + 3];
    dest[d + 3] := 255;
    assert src[s + 2] == pixel[2] && src[s + 1] == pixel[1] && src[s] == pixel[0];
    dest[d + 2] := src[s + 2];
    assert src[s + 1] == pixel[1] && src[s] == pixel[0];
    dest[d + 1] := src[s + 1];
    dest[d] := src[s];
    assert dest[d] == pixel[0] && dest[d + 1] == pixel[1] && dest[d + 2] == pixel[2];
    assert dest[..d] == was[..d] && dest[d + 4..] == was[d + 4..];
    assert dest[d..d + 4] == pixel + [255];
    assert dest[..] == dest[..d] + dest[d..d + 4] + dest[d + 4..];
  }

  // ----- 16-bit samples -----

  function Pair(high: int, low: int): int {
    256 * high + low
  }

  /** A 16-bit sample is its first byte above its second. */
  lemma Sample16(row: seq<byte>, i: nat)
    requires 2 * i + 1 < |row|
    ensures SampleAt(row, 16, i) == Pair(row[2 * i], row[2 * i + 1])
  {
    hide Msb, Shl;
    MsbSplit(row, 16 * i, 8, 8);
    MsbByte(row, 2 * i, 8);
    MsbByte(row, 2 * i + 1, 8);
    ShlByte(row[2 * i]);
  }

  /** The bytes of each pair exchanged. */
  function SwapPairs(t: seq<byte>): (r: seq<byte>)
    requires |t| % 2 == 0
    ensures |r| == |t|
  {
    seq(|t|, k requires 0 <= k < |t| => if k % 2 == 0 then t[k + 1] else t[k - 1])
  }

  /** 16-bit samples in the machine's order are the scanline's bytes, exchanged in pairs. */
  lemma SamplesAreSwapped(row: seq<byte>, fm: Format, n: nat)
    requires fm.depth == 16 && 2 * n <= |row|
    ensures Samples(row, fm, n) == SwapPairs(row[..2 * n])
  {
    hide SampleByte;
    var t := row[..2 * n];
    forall k | 0 <= k < 2 * n ensures SampleByte(row, fm, k) == SwapPairs(t)[k] {
      SampleBytes16(row, fm, k / 2);
    }
  }

  lemma SampleBytes16(row: seq<byte>, fm: Format, k: nat)
    requires fm.depth == 16 && 2 * k + 1 < |row|
    ensures SampleByte(row, fm, 2 * k) == row[2 * k + 1] && SampleByte(row, fm, 2 * k + 1) == row[2 * k]
  {
    hide SampleAt;
    Sample16(row, k);
    assert 2 * k / 2 == k && (2 * k + 1) / 2 == k;
  }

  method Swap16(buf: array<byte>, s: nat, out: array<byte>, d: nat, n: nat)
    requires s + 2 * n <= buf.Length && d + 2 * n <= out.Length && buf != out
    modifies out
    ensures out[d..d + 2 * n] == SwapPairs(buf[s..s + 2 * n])
    ensures out[..d] == old(out[..d]) && out[d + 2 * n..] == old(out[d + 2 * n..])
  {
    hide SwapPairs, SwappedTo;
    ghost var t, was := buf[s..s + 2 * n], out[..];
    NoPairs(was, d, t);
    for i := 0 to n
      invariant out[..] == SwappedTo(was, d, t, i)
    {
      NextPair(was, d, t, i);
      assert t[2 * i] == buf[s + 2 * i] && t[2 * i + 1] == buf[s + 2 * i + 1];
      StoreSample(buf, s + 2 * i, out, d + 2 * i);
    }
    AllPairs(was, d, t, n);
  }

  /** The first `i` pairs of `t` stand exchanged at `d`. */
  ghost function SwappedTo(was: seq<byte>, d: nat, t: seq<byte>, i: nat): seq<byte>
    requires |t| % 2 == 0 && 2 * i <= |t| && d + |t| <= |was|
  {
    was[..d] + SwapPairs(t)[..2 * i] + was[d + 2 * i..]
  }

  lemma NoPairs(was: seq<byte>, d: nat, t: seq<byte>)
    requires |t| % 2 == 0 && d + |t| <= |was|
    ensures SwappedTo(was, d, t, 0) == was
  {
  }

  lemma AllPairs(was: seq<byte>, d: nat, t: seq<byte>, n: nat)
    requires |t| == 2 * n && d + |t| <= |was|
    ensures var r := SwappedTo(was, d, t, n);
      |r| == |was| && r[d..d + 2 * n] == SwapPairs(t) && r[..d] == was[..d] && r[d + 2 * n..] == was[d + 2 * n..]
  {
    hide SwapPairs;
  }

  /** A 16-bit sample, read big-endian and stored in the machine's order. */
  method StoreSample(buf: array<byte>, s: nat, out: array<byte>, d: nat)
    requires s + 2 <= buf.Length && d + 2 <= out.Length && buf != out
    modifies out
    ensures out[..] == old(out[..])[d := buf[s + 1]][d + 1 := buf[s]]
  {
    var v := Pair(buf[s], buf[s + 1]);
    out[d] := v % 256;
    out[d + 1] := v / 256;
  }

  lemma NextPair(was: seq<byte>, d: nat, t: seq<byte>, i: nat)
    requires |t| % 2 == 0 && 2 * i + 2 <= |t| && d + |t| <= |was|
    ensures |SwappedTo(was, d, t, i)| == |was|
    ensures SwappedTo(was, d, t, i)[d + 2 * i := t[2 * i + 1]][d + 2 * i + 1 := t[2 * i]] == SwappedTo(was, d, t, i + 1)
  {
    var r := SwapPairs(t);
    assert r[..2 * i + 2] == r[..2 * i] + [t[2 * i + 1], t[2 * i]];
  }

  /** The bytes of `t` before `k` are expanded between `d` and `o` of `out`. */
  ghost predicate Forward(out: seq<byte>, d: nat, o: nat, t: seq<byte>, k: nat, m: nat) {
    && m > 0 && d <= o <= |out| && k <= |t|
    && out[d..o] + AddAlpha(t[k..], m, [255, 255]) == AddAlpha(t, m, [255, 255])
  }

  /** 16-bit pixels of `n` samples with an opaque alpha sample after each. */
  method AlphaExpand16(buf: array<byte>, s: nat, out: array<byte>, d: nat, x: nat, n: nat)
    requires n > 0 && buf != out && s + 2 * (x * n) <= buf.Length && d + 2 * (x * n) + 2 * x <= out.Length
    modifies out
    ensures out[d..d + 2 * (x * n) + 2 * x] == AddAlpha(SwapPairs(buf[s..s + 2 * (x * n)]), 2 * n, [255, 255])
    ensures out[..d] == old(out[..d])
  {
    hide AddAlpha, SwapPairs, Forward, Times;
    TimesProduct(x, n);
    ghost var row := buf[s..s + 2 * (x * n)];
    ghost var t := SwapPairs(row);
    var h := 0;
    ForwardStart(out[..], d, t, 2 * n);
    for i := 0 to x
      invariant h == Times(i, n)
      invariant out[..d] == old(out[..d])
      invariant Forward(out[..], d, d + 2 * h + 2 * i, t, 2 * h, 2 * n)
    {
      NextPixel(i, x, n);
      Expand16At(buf, s, row, out, d, d + 2 * h + 2 * i, 2 * h, n);
      h := h + n;
    }
    ForwardEnd(out[..], d, d + 2 * h + 2 * x, t, 2 * n);
  }

  /** Where pixel `i` of `m` samples each lies. */
  function Times(i: nat, m: nat): nat {
    if i == 0 then 0 else Times(i - 1, m) + m
  }

  lemma {:induction false} TimesProduct(i: nat, m: nat)
    ensures Times(i, m) == i * m && Times(0, m) == 0
  {
    if i > 0 {
      TimesProduct(i - 1, m);
      MulStep(i, m);
    }
  }

  lemma {:induction false} NextPixel(i: nat, x: nat, m: nat)
    requires i < x
    ensures Times(i + 1, m) == Times(i, m) + m <= Times(x, m)
    decreases x
  {
    if i + 1 < x { NextPixel(i, x - 1, m); }
  }

  lemma ForwardStart(out: seq<byte>, d: nat, t: seq<byte>, m: nat)
    requires m > 0 && d <= |out|
    ensures Forward(out, d, d, t, 0, m)
  {
    assert t[0..] == t;
  }

  lemma ForwardEnd(out: seq<byte>, d: nat, o: nat, t: seq<byte>, m: nat)
    requires Forward(out, d, o, t, |t|, m)
    ensures out[d..o] == AddAlpha(t, m, [255, 255])
  {
    assert t[|t|..] == [];
  }

  method Expand16At(buf: array<byte>, s: nat, ghost row: seq<byte>, out: array<byte>, ghost d: nat, o: nat, k: nat, n: nat)
    requires buf != out && n > 0 && s + |row| <= buf.Length && buf[s..s + |row|] == row && |row| % 2 == 0
    requires k % 2 == 0 && k + 2 * n <= |row| && o + 2 * n + 2 <= out.Length
    requires Forward(out[..], d, o, SwapPairs(row), k, 2 * n)
    modifies out
    ensures Forward(out[..], d, o + (2 * n + 2), SwapPairs(row), k + 2 * n, 2 * n)
    ensures out[..d] == old(out[..d])
  {
    hide SwapPairs, AddAlpha, Forward;
    ghost var was := out[..];
    Pixel16(buf, s + k, out, o, n);
    SliceOfSlice(buf[..], s, |row|, k, 2 * n);
    assert buf[..][s + k..s + k + 2 * n] == buf[s + k..s + k + 2 * n] && buf[..][s..s + |row|] == buf[s..s + |row|];
    ForwardStep(was, out[..], d, o, row, k, n);
  }

  lemma SliceOfSlice(b: seq<byte>, s: nat, m: nat, k: nat, n: nat)
    requires s + m <= |b| && k + n <= m
    ensures b[s + k..s + k + n] == b[s..s + m][k..k + n]
  {
    var a := b[s..s + m];
    var left, right := b[s + k..s + k + n], a[k..k + n];
    forall i | 0 <= i < n ensures left[i] == right[i] {
      assert a[k + i] == b[s + (k + i)];
    }
  }

  lemma ForwardStep(a: seq<byte>, b: seq<byte>, d: nat, o: nat, row: seq<byte>, k: nat, n: nat)
    requires n > 0 && |row| % 2 == 0 && k % 2 == 0 && k + 2 * n <= |row| && o + 2 * n + 2 <= |a|
    requires Forward(a, d, o, SwapPairs(row), k, 2 * n)
    requires b == a[..o] + (SwapPairs(row[k..k + 2 * n]) + [255, 255]) + a[o + 2 * n + 2..]
    ensures Forward(b, d, o + (2 * n + 2), SwapPairs(row), k + 2 * n, 2 * n)
    ensures b[..d] == a[..d]
  {
    hide AddAlpha, SwapPairs;
    var t, m := SwapPairs(row), 2 * n;
    AddAlphaStep(t, m, [255, 255], k);
    SwapPart(row, k, m);
    assert b[..o] == a[..o];
    SamePrefix(a, b, o, d, o);
    SamePrefix(a, b, o, 0, d);
    assert b[d..o + m + 2] == b[d..o] + (t[k..k + m] + [255, 255]);
  }

  lemma SwapPart(row: seq<byte>, k: nat, m: nat)
    requires |row| % 2 == 0 && k % 2 == 0 && m % 2 == 0 && k + m <= |row|
    ensures SwapPairs(row)[k..k + m] == SwapPairs(row[k..k + m])
  {
    var part := row[k..k + m];
    forall i | 0 <= i < m ensures SwapPairs(row)[k + i] == SwapPairs(part)[i] {
      assert (k + i) % 2 == i % 2;
    }
  }

  method Pixel16(buf: array<byte>, s: nat, out: array<byte>, d: nat, n: nat)
    requires s + 2 * n <= buf.Length && d + 2 * n + 2 <= out.Length && buf != out
    modifies out
    ensures out[..] == old(out[..d]) + (SwapPairs(buf[s..s + 2 * n]) + [255, 255]) + old(out[d + 2 * n + 2..])
  {
    hide SwapPairs;
    ghost var was := out[..];
    Swap16(buf, s, out, d, n);
    out[d + 2 * n], out[d + 2 * n + 1] := 255, 255;
    assert out[..d] == was[..d] && out[d + 2 * n + 2..] == was[d + 2 * n + 2..];
    assert out[d..d + 2 * n] == SwapPairs(buf[s..s + 2 * n]);
    assert out[..] == out[..d] + (out[d..d + 2 * n] + [255, 255]) + out[d + 2 * n + 2..];
  }

  // ----- a whole row -----

  /** The row's part of the output: `stride` bytes at `base`. */
  method ExpandRow(buf: array<byte>, cur: nat, ghost wb: nat, out: array<byte>, base: nat, x: nat, fm: Format)
    requires fm.Good() && buf != out
    requires wb == fm.RowBytes(x) && cur + wb <= buf.Length && base + fm.Stride(x) <= out.Length
    modifies out
    ensures out[base..base + fm.Stride(x)] == RowOut(buf[cur..cur + wb], fm, x)
    ensures out[..base] == old(out[..base])
  {
    hide RowOut, Format.RowBytes;
    if fm.depth < 8 {
      ExpandLow(buf, cur, wb, out, base, x, fm);
    } else if fm.depth == 8 {
      Expand8(buf, cur, wb, out, base, x, fm);
    } else {
      Expand16(buf, cur, wb, out, base, x, fm);
    }
  }

  method ExpandLow(buf: array<byte>, cur: nat, ghost wb: nat, out: array<byte>, base: nat, x: nat, fm: Format)
    requires fm.Good() && fm.depth < 8 && buf != out
    requires wb == fm.RowBytes(x) && cur + wb <= buf.Length && base + x * fm.outN <= out.Length
    modifies out
    ensures out[base..base + x * fm.outN] == RowOut(buf[cur..cur + wb], fm, x)
    ensures out[..base] == old(out[..base])
  {
    hide Samples, AddAlpha, Format.RowBytes, RowOut, Format.Good;
    var n := x * fm.imgN;
    EnoughBytes(fm, x, n);
    StrideOf(x, fm, n);
    LowRow(buf[cur..cur + wb], fm, x, n);
    UnpackBits(buf, cur, wb, out, base, n, fm);
    if fm.imgN != fm.outN {
      AlphaExpand8(out, base, out, base, x, fm.imgN);
    }
  }

  method Expand8(buf: array<byte>, cur: nat, ghost wb: nat, out: array<byte>, base: nat, x: nat, fm: Format)
    requires fm.Good() && fm.depth == 8 && buf != out
    requires wb == fm.RowBytes(x) && cur + wb <= buf.Length && base + x * fm.outN <= out.Length
    modifies out
    ensures out[base..base + x * fm.outN] == RowOut(buf[cur..cur + wb], fm, x)
    ensures out[..base] == old(out[..base])
  {
    hide Samples, AddAlpha;
    var n := x * fm.imgN;
    WholeBytes(fm, x);
    StrideOf(x, fm, n);
    SamplesAreBytes(buf[cur..cur + wb], fm, n);
    assert buf[cur..cur + wb][..n] == buf[cur..cur + n];
    if fm.imgN == fm.outN {
      CopyRow(buf, cur, out, base, n);
    } else {
      AlphaExpand8(out, base, buf, cur, x, fm.imgN);
    }
  }

  method Expand16(buf: array<byte>, cur: nat, ghost wb: nat, out: array<byte>, base: nat, x: nat, fm: Format)
    requires fm.Good() && fm.depth == 16 && buf != out
    requires wb == fm.RowBytes(x) && cur + wb <= buf.Length && base + x * (fm.outN * 2) <= out.Length
    modifies out
    ensures out[base..base + x * (fm.outN * 2)] == RowOut(buf[cur..cur + wb], fm, x)
    ensures out[..base] == old(out[..base])
  {
    hide Samples, AddAlpha, SwapPairs;
    WholeBytes(fm, x);
    Stride16(x, fm);
    ghost var row := buf[cur..cur + wb];
    SamplesAreSwapped(row, fm, x * fm.imgN);
    assert row[..2 * (x * fm.imgN)] == row;
    if fm.imgN == fm.outN {
      Swap16(buf, cur, out, base, x * fm.imgN);
    } else {
      AlphaExpand16(buf, cur, out, base, x, fm.imgN);
    }
  }

  lemma LowRow(row: seq<byte>, fm: Format, x: nat, n: nat)
    requires fm.Good() && fm.depth < 8 && n == x * fm.imgN
    ensures fm.outN != fm.imgN ==> fm.imgN == 1 || fm.imgN == 3
    ensures RowOut(row, fm, x) == if fm.outN == fm.imgN then Samples(row, fm, n) else AddAlpha(Samples(row, fm, n), fm.imgN, [255])
  {
    hide Samples, AddAlpha;
  }

  lemma StrideOf(x: nat, fm: Format, n: nat)
    requires fm.Good() && n == x * fm.imgN
    ensures x * fm.outN == if fm.outN == fm.imgN then n else n + x
  {
  }

  lemma Stride16(x: nat, fm: Format)
    requires fm.Good()
    ensures x * (fm.outN * 2) == 2 * (x * fm.imgN) + if fm.outN == fm.imgN then 0 else 2 * x
  {
  }

  /** With whole-byte samples a scanline is nothing but samples. */
  lemma WholeBytes(fm: Format, x: nat)
    requires fm.depth == 8 || fm.depth == 16
    ensures fm.RowBytes(x) == x * fm.imgN * fm.Bytes()
  {
    var n := fm.imgN * x;
    assert n == x * fm.imgN;
  }

  method CopyRow(buf: array<byte>, s: nat, out: array<byte>, d: nat, n: nat)
    requires s + n <= buf.Length && d + n <= out.Length && buf != out
    modifies out
    ensures out[d..d + n] == buf[s..s + n] && out[..d] == old(out[..d])
  {
    for i := 0 to n
      invariant out[d..d + i] == buf[s..s + i] && out[..d] == old(out[..d])
    {
      out[d + i] := buf[s + i];
    }
  }

  /** A scanline holds all its samples. */
  lemma EnoughBytes(fm: Format, x: nat, n: nat)
    requires n == x * fm.imgN
    ensures n * fm.depth <= 8 * fm.RowBytes(x)
  {
    assert n == fm.imgN * x;
  }

  lemma SamplesAreBytes(row: seq<byte>, fm: Format, n: nat)
    requires fm.depth == 8 && n <= |row|
    ensures Samples(row, fm, n) == row[..n]
  {
    hide Msb;
    forall k | 0 <= k < n ensures SampleByte(row, fm, k) == row[k] {
      MsbByte(row, k, 8);
    }
  }
}
