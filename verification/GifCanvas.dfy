/** What a GIF frame's pixels do to the canvas, stated position by position. */
module GifCanvas {
  import opened Bits
  import GifRaster

  /** A frame of `w` by `h` pixels at `(x, y)` of a canvas of `cw` by `ch`, with its colour table
      of 256 entries of four bytes. */
  datatype Frame = Frame(cw: nat, ch: nat, x: nat, y: nat, w: nat, h: nat, interlaced: bool, table: seq<byte>) {
    predicate Good() {
      x + w <= cw && y + h <= ch && |table| == 1024
    }

    predicate Covers(c: nat, r: nat) {
      x <= c < x + w && y <= r < y + h
    }

    /** Which pixel of the frame's data lies at column `c`, row `r` of the canvas. */
    function Index(c: nat, r: nat): nat
      requires Covers(c, r)
    {
      GifRaster.Rank(r - y, h, interlaced) * w + (c - x)
    }

    /** Which pixel of the canvas that is. */
    function Number(c: nat, r: nat): nat {
      r * cw + c
    }

    function Colour(v: byte): (q: seq<byte>)
      requires |table| == 1024
      ensures |q| == 4
    {
      table[4 * v..4 * v + 4]
    }
  }

  /** Four bytes of a canvas. */
  function Quad(s: seq<byte>, q: nat): seq<byte> {
    if 4 * q + 4 <= |s| then s[4 * q..4 * q + 4] else []
  }

  /** A colour drawn over a canvas pixel, in the canvas's byte order; transparent ones are not. */
  function Over(was: seq<byte>, colour: seq<byte>): seq<byte>
    requires |colour| == 4
  {
    if colour[3] > 128 then [colour[2], colour[1], colour[0], colour[3]] else was
  }

  /** What the canvas pixel at `(c, r)` is after the frame's pixels `ps` have been drawn. */
  function Drawn(fr: Frame, base: seq<byte>, ps: seq<byte>, c: nat, r: nat): seq<byte>
    requires fr.Good()
  {
    var was := Quad(base, fr.Number(c, r));
    if fr.Covers(c, r) && fr.Index(c, r) < |ps| then Over(was, fr.Colour(ps[fr.Index(c, r)])) else was
  }

  ghost predicate Shows(fr: Frame, out: seq<byte>, base: seq<byte>, ps: seq<byte>)
    requires fr.Good()
  {
    forall c, r :: 0 <= c < fr.cw && 0 <= r < fr.ch ==> Quad(out, fr.Number(c, r)) == Drawn(fr, base, ps, c, r)
  }

  /** The history marks exactly the pixels that data has reached. */
  ghost predicate Marks(fr: Frame, history: seq<byte>, base: seq<byte>, ps: seq<byte>) {
    |history| == |base| == fr.cw * fr.ch
    && forall c, r :: 0 <= c < fr.cw && 0 <= r < fr.ch ==> Marked(fr, history, base, ps, c, r)
  }

  ghost predicate Marked(fr: Frame, history: seq<byte>, base: seq<byte>, ps: seq<byte>, c: nat, r: nat) {
    var q := fr.Number(c, r);
    && q < |history| && q < |base|
    && history[q] == if fr.Covers(c, r) && fr.Index(c, r) < |ps| then 1 else base[q]
  }

  // ----- the first frame -----

  const CLEAR: seq<byte> := [0, 0, 0, 0]

  /** Entry `k` of a palette, made opaque. */
  function Opaque(pal: seq<byte>, k: byte): (q: seq<byte>)
    requires |pal| == 1024
    ensures |q| == 4
  {
    pal[4 * k..4 * k + 3] + [255]
  }

  /** The data has a pixel for the canvas pixel at `(c, r)`. */
  predicate Reached(fr: Frame, ps: seq<byte>, c: nat, r: nat) {
    fr.Covers(c, r) && fr.Index(c, r) < |ps|
  }

  /** A pixel of the first frame: drawn on a clear canvas where the data reaches, and the background
      elsewhere, unless that is entry 0 of the palette. */
  function FirstFrame(fr: Frame, pal: seq<byte>, bg: byte, ps: seq<byte>, c: nat, r: nat): seq<byte>
    requires fr.Good() && |pal| == 1024
  {
    if Reached(fr, ps, c, r) then Over(CLEAR, fr.Colour(ps[fr.Index(c, r)]))
    else if bg > 0 then Opaque(pal, bg) else CLEAR
  }

  ghost predicate ShowsFirst(fr: Frame, out: seq<byte>, pal: seq<byte>, bg: byte, ps: seq<byte>)
    requires fr.Good() && |pal| == 1024
  {
    forall c, r :: 0 <= c < fr.cw && 0 <= r < fr.ch ==> Quad(out, fr.Number(c, r)) == FirstFrame(fr, pal, bg, ps, c, r)
  }

  /** The background is copied in the byte order of the palette, and pixels are drawn in the other:
      it shows as the colour of its entry exactly when the first and third byte agree. */
  lemma BackgroundOrder(fr: Frame, pal: seq<byte>, bg: byte, ps: seq<byte>, c: nat, r: nat)
    requires fr.Good() && |pal| == 1024 && bg > 0 && !Reached(fr, ps, c, r)
    ensures FirstFrame(fr, pal, bg, ps, c, r) == Over(CLEAR, Opaque(pal, bg)) <==> pal[4 * bg] == pal[4 * bg + 2]
  {
    var o := Opaque(pal, bg);
    assert o == [pal[4 * bg], pal[4 * bg + 1], pal[4 * bg + 2], 255];
    assert Over(CLEAR, o)[0] == pal[4 * bg + 2];
  }

  /** A red background comes out blue. */
  lemma RedIsBlue(fr: Frame, pal: seq<byte>, ps: seq<byte>, c: nat, r: nat)
    requires fr.Good() && |pal| == 1024 && !Reached(fr, ps, c, r)
    requires pal[4..7] == [0, 0, 255]
    ensures Over(CLEAR, Opaque(pal, 1)) == [255, 0, 0, 255] && FirstFrame(fr, pal, 1, ps, c, r) == [0, 0, 255, 255]
  {
    assert pal[4] == pal[4..7][0] && pal[5] == pal[4..7][1] && pal[6] == pal[4..7][2];
  }

  /** Filling every unmarked pixel of a frame drawn on a clear canvas makes it a first frame. */
  lemma FilledShows(fr: Frame, a: seq<byte>, b: seq<byte>, base: seq<byte>, history: seq<byte>, marks: seq<byte>,
                    pal: seq<byte>, bg: byte, ps: seq<byte>)
    requires fr.Good() && |pal| == 1024 && |base| == 4 * (fr.cw * fr.ch) && |marks| == |history| == fr.cw * fr.ch
    requires forall k :: 0 <= k < |base| ==> base[k] == 0
    requires forall k :: 0 <= k < |marks| ==> marks[k] == 0
    requires Shows(fr, a, base, ps) && Marks(fr, history, marks, ps)
    requires Backed(a, b, history, pal, bg)
    ensures ShowsFirst(fr, b, pal, bg, ps)
  {
    hide Quad, Over, Opaque, Frame.Index, Frame.Number;
    forall c, r | 0 <= c < fr.cw && 0 <= r < fr.ch
      ensures Quad(b, fr.Number(c, r)) == FirstFrame(fr, pal, bg, ps, c, r)
    {
      NumberInside(fr, c, r);
      assert Marked(fr, history, marks, ps, c, r);
      assert Quad(a, fr.Number(c, r)) == Drawn(fr, base, ps, c, r);
      ClearQuad(base, fr.Number(c, r));
    }
  }

  /** Every unmarked pixel of `a` has become the background, unless that is entry 0. */
  ghost predicate Backed(a: seq<byte>, b: seq<byte>, history: seq<byte>, pal: seq<byte>, bg: byte)
    requires |pal| == 1024
  {
    forall q :: 0 <= q < |history| ==>
      Quad(b, q) == if history[q] == 0 && bg > 0 then Opaque(pal, bg) else Quad(a, q)
  }

  lemma ClearQuad(base: seq<byte>, q: nat)
    requires 4 * q + 4 <= |base| && forall k :: 0 <= k < |base| ==> base[k] == 0
    ensures Quad(base, q) == CLEAR
  {
  }

  // ----- positions -----

  lemma NumberInside(fr: Frame, c: nat, r: nat)
    requires c < fr.cw && r < fr.ch
    ensures fr.Number(c, r) < fr.cw * fr.ch
  {
    MulMono(fr.cw, r + 1, fr.ch);
  }

  lemma NumberInjective(fr: Frame, c: nat, r: nat, c': nat, r': nat)
    requires c < fr.cw && c' < fr.cw && fr.Number(c, r) == fr.Number(c', r')
    ensures c == c' && r == r'
  {
    DivModUnique(fr.Number(c, r), fr.cw, r, c);
    DivModUnique(fr.Number(c', r'), fr.cw, r', c');
  }

  /** Every position of the frame is reached, and within the frame's number of pixels. */
  lemma IndexInside(fr: Frame, c: nat, r: nat)
    requires fr.Covers(c, r)
    ensures fr.Index(c, r) < fr.w * fr.h
  {
    hide GifRaster.Rank;
    var k := GifRaster.Rank(r - fr.y, fr.h, fr.interlaced);
    GifRaster.RankInRange(r - fr.y, fr.h, fr.interlaced);
    MulMono(fr.w, k + 1, fr.h);
  }

  /** No two pixels of the data share a position. */
  lemma IndexInjective(fr: Frame, c: nat, r: nat, c': nat, r': nat)
    requires fr.Covers(c, r) && fr.Covers(c', r') && fr.Index(c, r) == fr.Index(c', r')
    ensures c == c' && r == r'
  {
    hide GifRaster.Rank;
    var k, k' := GifRaster.Rank(r - fr.y, fr.h, fr.interlaced), GifRaster.Rank(r' - fr.y, fr.h, fr.interlaced);
    DivModUnique(fr.Index(c, r), fr.w, k, c - fr.x);
    DivModUnique(fr.Index(c', r'), fr.w, k', c' - fr.x);
    GifRaster.RankInjective(r - fr.y, r' - fr.y, fr.h, fr.interlaced);
  }

  // ----- drawing one pixel -----

  /** Pixels past the frame's last position change nothing. */
  lemma Clipped(fr: Frame, out: seq<byte>, base: seq<byte>, ps: seq<byte>, v: byte)
    requires fr.Good() && Shows(fr, out, base, ps) && |ps| >= fr.w * fr.h
    ensures Shows(fr, out, base, ps + [v])
  {
    hide Quad, Over, Frame.Index, Frame.Number;
    forall c, r | 0 <= c < fr.cw && 0 <= r < fr.ch
      ensures Quad(out, fr.Number(c, r)) == Drawn(fr, base, ps + [v], c, r)
    {
      if fr.Covers(c, r) {
        IndexInside(fr, c, r);
      }
    }
  }

  lemma ClippedMark(fr: Frame, history: seq<byte>, base: seq<byte>, ps: seq<byte>, v: byte)
    requires Marks(fr, history, base, ps) && |ps| >= fr.w * fr.h
    ensures Marks(fr, history, base, ps + [v])
  {
    hide Frame.Index, Frame.Number;
    forall c, r | 0 <= c < fr.cw && 0 <= r < fr.ch ensures Marked(fr, history, base, ps + [v], c, r) {
      assert Marked(fr, history, base, ps, c, r);
      if fr.Covers(c, r) {
        IndexInside(fr, c, r);
      }
    }
  }

  /** Drawing the next pixel where its index says changes that position alone. */
  lemma DrawOne(fr: Frame, a: seq<byte>, b: seq<byte>, base: seq<byte>, ps: seq<byte>, v: byte, c: nat, r: nat)
    requires fr.Good() && Shows(fr, a, base, ps) && |a| == |b|
    requires fr.Covers(c, r) && fr.Index(c, r) == |ps|
    requires Quad(b, fr.Number(c, r)) == Over(Quad(a, fr.Number(c, r)), fr.Colour(v))
    requires forall q: nat :: q != fr.Number(c, r) ==> Quad(b, q) == Quad(a, q)
    ensures Shows(fr, b, base, ps + [v])
  {
    hide Quad, Over, Frame.Index, Frame.Number;
    forall c', r' | 0 <= c' < fr.cw && 0 <= r' < fr.ch
      ensures Quad(b, fr.Number(c', r')) == Drawn(fr, base, ps + [v], c', r')
    {
      assert Quad(a, fr.Number(c', r')) == Drawn(fr, base, ps, c', r');
      if c' != c || r' != r {
        if fr.Number(c', r') == fr.Number(c, r) {
          NumberInjective(fr, c', r', c, r);
        }
        if fr.Covers(c', r') && fr.Index(c', r') == |ps| {
          IndexInjective(fr, c', r', c, r);
        }
      }
    }
  }

  lemma MarkOne(fr: Frame, a: seq<byte>, base: seq<byte>, ps: seq<byte>, v: byte, c: nat, r: nat)
    requires fr.Good() && Marks(fr, a, base, ps)
    requires fr.Covers(c, r) && fr.Index(c, r) == |ps|
    ensures fr.Number(c, r) < |a| && Marks(fr, a[fr.Number(c, r) := 1], base, ps + [v])
  {
    hide Frame.Index, Frame.Number;
    NumberInside(fr, c, r);
    var b := a[fr.Number(c, r) := 1];
    forall c', r' | 0 <= c' < fr.cw && 0 <= r' < fr.ch ensures Marked(fr, b, base, ps + [v], c', r') {
      assert Marked(fr, a, base, ps, c', r');
      if c' != c || r' != r {
        if fr.Number(c', r') == fr.Number(c, r) {
          NumberInjective(fr, c', r', c, r);
        }
        if fr.Covers(c', r') && fr.Index(c', r') == |ps| {
          IndexInjective(fr, c', r', c, r);
        }
      }
    }
  }
}
