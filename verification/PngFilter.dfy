/** PNG scanline filters (section 9 of the W3C PNG specification), and stb_image's row loop bodies,
    which undo them inside one buffer that holds the current and the previous row. */
module PngFilter {
  import opened Bits

  const FILTER_SUB := 1
  const FILTER_UP := 2
  const FILTER_AVG := 3
  const FILTER_PAETH := 4
  const FILTER_AVG_FIRST := 5

  // ----- the reference -----

  function Abs(x: int): nat {
    if x < 0 then -x else x
  }

  /** The predictor of section 9.4. */
  function Paeth(a: int, b: int, c: int): int {
    var p := a + b - c;
    var pa, pb, pc := Abs(p - a), Abs(p - b), Abs(p - c);
    if pa <= pb && pa <= pc then a else if pb <= pc then b else c
  }

  /** What byte `k` of a row is predicted to be, from the bytes before it in the same row and the
      whole previous row; `bpp` bytes make one pixel, and bytes left of the row count as zero. */
  function Predict(f: nat, bpp: nat, k: nat, cur: seq<byte>, prior: seq<byte>): int
    requires bpp > 0 && k <= |cur| && k < |prior|
  {
    var a: int, b: int, c: int := if k < bpp then 0 else cur[k - bpp], prior[k], if k < bpp then 0 else prior[k - bpp];
    if f == FILTER_SUB then a
    else if f == FILTER_UP then b
    else if f == FILTER_AVG then (a + b) / 2
    else if f == FILTER_PAETH then Paeth(a, b, c)
    else 0
  }

  function FilterByte(x: int, predicted: int): byte {
    (x - predicted) % 256
  }

  function ReconByte(x: int, predicted: int): byte {
    (x + predicted) % 256
  }

  /** The filtered row. */
  function FilterRow(f: nat, bpp: nat, row: seq<byte>, prior: seq<byte>): (r: seq<byte>)
    requires bpp > 0 && |prior| == |row|
    ensures |r| == |row|
  {
    seq(|row|, k requires 0 <= k < |row| => FilterByte(row[k], Predict(f, bpp, k, row, prior)))
  }

  /** The reconstructed row. */
  function ReconRow(f: nat, bpp: nat, raw: seq<byte>, prior: seq<byte>): (r: seq<byte>)
    requires bpp > 0 && |raw| <= |prior|
    ensures |r| == |raw|
    decreases |raw|
  {
    if raw == [] then []
    else
      var k := |raw| - 1;
      var before := ReconRow(f, bpp, raw[..k], prior);
      before + [ReconByte(raw[k], Predict(f, bpp, k, before, prior))]
  }

  function Zeros(n: nat): (z: seq<byte>)
    ensures |z| == n
  {
    seq(n, k => 0)
  }

  lemma ByteRoundTrip(x: byte, predicted: int)
    ensures ReconByte(FilterByte(x, predicted), predicted) == x
  {
  }

  /** Reconstruction undoes filtering, for every row, filter and previous row. */
  lemma {:induction false} ReconFilter(f: nat, bpp: nat, row: seq<byte>, prior: seq<byte>, n: nat)
    requires bpp > 0 && |prior| == |row| && n <= |row|
    ensures ReconRow(f, bpp, FilterRow(f, bpp, row, prior)[..n], prior) == row[..n]
    decreases n
  {
    hide Predict;
    if n > 0 {
      var k := n - 1;
      var raw := FilterRow(f, bpp, row, prior);
      ReconFilter(f, bpp, row, prior, k);
      assert raw[..n][..k] == raw[..k];
      PredictPrefix(f, bpp, k, row[..k], row, prior);
      ByteRoundTrip(row[k], Predict(f, bpp, k, row, prior));
      assert row[..n] == row[..k] + [row[k]];
    }
  }

  lemma PredictPrefix(f: nat, bpp: nat, k: nat, a: seq<byte>, b: seq<byte>, prior: seq<byte>)
    requires bpp > 0 && k <= |a| && k <= |b| && k < |prior| && a[..k] == b[..k]
    ensures Predict(f, bpp, k, a, prior) == Predict(f, bpp, k, b, prior)
  {
    if k >= bpp {
      assert a[..k][k - bpp] == b[..k][k - bpp];
    }
  }

  // ----- the rewritten predictor and the first-row filters -----

  /** `stbi__paeth`. */
  function FastPaeth(a: int, b: int, c: int): int {
    var thresh := c * 3 - (a + b);
    var lo := if a < b then a else b;
    var hi := if a < b then b else a;
    var t0 := if hi <= thresh then lo else c;
    if thresh <= lo then hi else t0
  }

  /** The rewritten predictor is the reference one, for all integers. */
  lemma PaethAgrees(a: int, b: int, c: int)
    ensures FastPaeth(a, b, c) == Paeth(a, b, c)
  {
  }

  /** `first_row_filter`: filters that do not look at a previous row. */
  function FirstRowFilter(f: nat): nat
    requires f <= 4
  {
    if f == FILTER_UP then 0 else if f == FILTER_AVG then FILTER_AVG_FIRST else if f == FILTER_PAETH then FILTER_SUB else f
  }

  /** How byte `k` of a row is predicted by the code's branch for filter `g`, one of six. */
  function Branch(g: nat, bpp: nat, k: nat, cur: seq<byte>, prior: seq<byte>): int
    requires bpp > 0 && k <= |cur| && k < |prior|
  {
    if g == FILTER_SUB then (if k < bpp then 0 else cur[k - bpp])
    else if g == FILTER_UP then prior[k]
    else if g == FILTER_AVG then (if k < bpp then prior[k] / 2 else (prior[k] + cur[k - bpp]) / 2)
    else if g == FILTER_PAETH then (if k < bpp then prior[k] else FastPaeth(cur[k - bpp], prior[k], prior[k - bpp]))
    else if g == FILTER_AVG_FIRST then (if k < bpp then 0 else cur[k - bpp] / 2)
    else 0
  }

  /** The branches compute the reference prediction; on the first row, with the substituted
      filter, they compute the reference prediction against a row of zeros. */
  lemma BranchAgrees(f: nat, bpp: nat, k: nat, cur: seq<byte>, prior: seq<byte>)
    requires f <= 4 && bpp > 0 && k <= |cur| && k < |prior|
    ensures Branch(f, bpp, k, cur, prior) == Predict(f, bpp, k, cur, prior)
    ensures Branch(FirstRowFilter(f), bpp, k, cur, prior) == Predict(f, bpp, k, cur, Zeros(|prior|))
  {
    if k >= bpp {
      PaethAgrees(cur[k - bpp], prior[k], prior[k - bpp]);
    } else {
      PaethAgrees(0, prior[k], 0);
    }
  }

  /** The filter a row's branch is chosen by, and the previous row it stands for. */
  function Chosen(f: nat, first: bool): nat
    requires f <= 4
  {
    if first then FirstRowFilter(f) else f
  }

  function PriorOf(prior: seq<byte>, first: bool): (p: seq<byte>)
    ensures |p| == |prior|
  {
    if first then Zeros(|prior|) else prior
  }

  lemma ReconStep(f: nat, first: bool, bpp: nat, raw: seq<byte>, prior: seq<byte>, k: nat)
    requires f <= 4 && bpp > 0 && k < |raw| <= |prior|
    ensures var before := ReconRow(f, bpp, raw[..k], PriorOf(prior, first));
      ReconRow(f, bpp, raw[..k + 1], PriorOf(prior, first))
      == before + [ReconByte(raw[k], Branch(Chosen(f, first), bpp, k, before, prior))]
  {
    hide Branch, Predict;
    assert raw[..k + 1][..k] == raw[..k];
    BranchAgrees(f, bpp, k, ReconRow(f, bpp, raw[..k], PriorOf(prior, first)), prior);
  }

  // ----- the row loop's body -----

  /** The prediction inside the first pixel of a row, which has nothing to its left. */
  function LeftEdge(g: nat, up: byte): int {
    if g == FILTER_UP || g == FILTER_PAETH then up else if g == FILTER_AVG then up / 2 else 0
  }

  function Inside(g: nat, left: byte, up: byte, upLeft: byte): int {
    if g == FILTER_SUB then left
    else if g == FILTER_UP then up
    else if g == FILTER_AVG then (up + left) / 2
    else if g == FILTER_PAETH then FastPaeth(left, up, upLeft)
    else if g == FILTER_AVG_FIRST then left / 2
    else 0
  }

  /** The bytes of the current row from `cur` that are already reconstructed, and the previous
      row, unchanged at `prior`. */
  ghost predicate RowSoFar(buf: seq<byte>, cur: nat, prior: nat, f: nat, first: bool, bpp: nat, x: seq<byte>, p: seq<byte>, k: nat)
    requires bpp > 0
  {
    && |x| == |p| && k <= |x| && cur + |x| <= |buf| && prior + |x| <= |buf|
    && (cur + |x| <= prior || prior + |x| <= cur)
    && buf[prior..prior + |x|] == p
    && buf[cur..cur + k] == ReconRow(f, bpp, x[..k], PriorOf(p, first))
  }

  /** Undoes one row's filter: `cur` and `prior` are where the two rows lie in `buf`, and `at` is
      where the row's filtered bytes lie in the data. */
  method UnfilterRow(buf: array<byte>, cur: nat, prior: nat, raw: seq<byte>, at: nat, nk: nat, bpp: nat, f: nat, first: bool)
    requires 0 < bpp <= nk && f <= 4 && at + nk <= |raw|
    requires cur + nk <= buf.Length && prior + nk <= buf.Length
    requires cur + nk <= prior || prior + nk <= cur
    modifies buf
    ensures buf[cur..cur + nk] == ReconRow(f, bpp, raw[at..at + nk], PriorOf(old(buf[prior..prior + nk]), first))
    ensures buf[prior..prior + nk] == old(buf[prior..prior + nk])
  {
    hide ReconRow, PriorOf, Chosen;
    ghost var p := buf[prior..prior + nk];
    var x := raw[at..at + nk];
    var k := 0;
    NoRow(f, bpp, x, PriorOf(p, first));
    while k < bpp
      invariant k <= bpp && RowSoFar(buf[..], cur, prior, f, first, bpp, x, p, k)
    {
      hide RowSoFar;
      FirstPixelByte(buf, cur, prior, f, first, bpp, x, p, k);
      k := k + 1;
    }
    while k < nk
      invariant bpp <= k <= nk && RowSoFar(buf[..], cur, prior, f, first, bpp, x, p, k)
    {
      hide RowSoFar;
      LaterByte(buf, cur, prior, f, first, bpp, x, p, k);
      k := k + 1;
    }
    assert x[..nk] == x;
  }

  method FirstPixelByte(buf: array<byte>, cur: nat, prior: nat, f: nat, first: bool, bpp: nat, x: seq<byte>, ghost p: seq<byte>, k: nat)
    requires f <= 4 && k < bpp && k < |x| && RowSoFar(buf[..], cur, prior, f, first, bpp, x, p, k)
    modifies buf
    ensures RowSoFar(buf[..], cur, prior, f, first, bpp, x, p, k + 1)
  {
    hide ReconRow, PriorOf, Branch, LeftEdge, ReconByte, Chosen;
    var g := Chosen(f, first);
    ReconStep(f, first, bpp, x, p, k);
    BranchAtEdge(g, bpp, k, buf[cur..cur + k], p);
    StoreByte(buf, cur, k, ReconByte(x[k], LeftEdge(g, buf[prior + k])), prior, |x|);
  }

  method LaterByte(buf: array<byte>, cur: nat, prior: nat, f: nat, first: bool, bpp: nat, x: seq<byte>, ghost p: seq<byte>, k: nat)
    requires f <= 4 && 0 < bpp <= k < |x| && RowSoFar(buf[..], cur, prior, f, first, bpp, x, p, k)
    modifies buf
    ensures RowSoFar(buf[..], cur, prior, f, first, bpp, x, p, k + 1)
  {
    hide ReconRow, PriorOf, Branch, Inside, ReconByte, Chosen;
    var g := Chosen(f, first);
    ReconStep(f, first, bpp, x, p, k);
    BranchInside(g, bpp, k, buf[cur..cur + k], p);
    var predicted := Inside(g, buf[cur + k - bpp], buf[prior + k], buf[prior + k - bpp]);
    StoreByte(buf, cur, k, ReconByte(x[k], predicted), prior, |x|);
  }

  lemma NoRow(f: nat, bpp: nat, x: seq<byte>, prior: seq<byte>)
    requires bpp > 0
    ensures ReconRow(f, bpp, x[..0], prior) == []
  {
  }

  lemma BranchAtEdge(g: nat, bpp: nat, k: nat, cur: seq<byte>, prior: seq<byte>)
    requires k < bpp && k <= |cur| && k < |prior|
    ensures Branch(g, bpp, k, cur, prior) == LeftEdge(g, prior[k])
  {
  }

  lemma BranchInside(g: nat, bpp: nat, k: nat, cur: seq<byte>, prior: seq<byte>)
    requires 0 < bpp <= k <= |cur| && k < |prior|
    ensures Branch(g, bpp, k, cur, prior) == Inside(g, cur[k - bpp], prior[k], prior[k - bpp])
  {
  }

  method StoreByte(buf: array<byte>, cur: nat, k: nat, v: byte, ghost prior: nat, ghost nk: nat)
    requires k < nk && cur + nk <= buf.Length && prior + nk <= buf.Length
    requires cur + nk <= prior || prior + nk <= cur
    modifies buf
    ensures buf[cur..cur + k + 1] == old(buf[cur..cur + k]) + [v]
    ensures buf[prior..prior + nk] == old(buf[prior..prior + nk])
  {
    buf[cur + k] := v;
  }
}
