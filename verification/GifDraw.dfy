/** The raster side of stb_image's GIF decoder: the frame of `stbi__gif_load_next` and the pixel
    step of `stbi__out_gif_code`. */
module GifDraw {
  import opened Bits
  import opened GifRaster
  import opened GifCanvas

  lemma Lines(a: nat, b: nat, line: nat)
    ensures (a + b) * line == a * line + b * line
  {
  }

  lemma LineOrder(a: nat, b: nat, line: nat)
    requires line > 0
    ensures a * line >= b * line <==> a >= b
  {
    if a >= b {
      MulMono(line, b, a);
    } else {
      MulMono(line, a + 1, b);
    }
  }

  class Raster {
    const out: array<byte>
    const history: array<byte>
    var color_table: seq<byte>
    var parse: nat
    var step: nat
    var start_x: nat
    var start_y: nat
    var max_x: nat
    var max_y: nat
    var cur_x: nat
    var cur_y: nat
    var line_size: nat
    // the frame, the pixel values given so far, the canvas before them, and where the cursor is
    ghost var fr: Frame
    ghost var drawn: seq<byte>
    ghost var canvas: seq<byte>
    ghost var marks: seq<byte>
    ghost var row: nat
    ghost var col: nat

    ghost predicate Shape()
      reads this
    {
      && fr.Good() && out != history
      && out.Length == 4 * (fr.cw * fr.ch) && history.Length == fr.cw * fr.ch
      && color_table == fr.table
      && line_size == 4 * fr.cw
      && start_x == 4 * fr.x && max_x == 4 * (fr.x + fr.w)
      && start_y == fr.y * line_size && max_y == (fr.y + fr.h) * line_size
    }

    /** The cursor is at the position of the next pixel. */
    ghost predicate Live()
      reads this
    {
      && col < fr.w && row < fr.h
      && |drawn| == Rank(row, fr.h, fr.interlaced) * fr.w + col
      && cur_x == 4 * (fr.x + col) && cur_y == (fr.y + row) * line_size
      && step == StepOf(row, fr.interlaced) * line_size && parse == ParseOf(row, fr.interlaced)
    }

    /** The frame is full. */
    ghost predicate Full()
      reads this
    {
      cur_y >= max_y && |drawn| >= fr.w * fr.h
    }

    ghost predicate Pictured()
      reads this, out, history
    {
      fr.Good() && Shows(fr, out[..], canvas, drawn) && Marks(fr, history[..], marks, drawn)
    }

    ghost predicate Valid()
      reads this, out, history
    {
      Shape() && (Live() || Full()) && Pictured()
    }

    /** A canvas of `w` by `h` transparent pixels. */
    constructor (w: nat, h: nat)
      ensures fresh(out) && fresh(history) && out != history
      ensures out.Length == 4 * (w * h) && history.Length == w * h
      ensures forall k :: 0 <= k < out.Length ==> out[k] == 0
      ensures forall k :: 0 <= k < history.Length ==> history[k] == 0
    {
      out := new byte[4 * (w * h)](_ => 0);
      history := new byte[w * h](_ => 0);
      color_table := [];
      parse, step, start_x, start_y, max_x, max_y, cur_x, cur_y, line_size := 0, 0, 0, 0, 0, 0, 0, 0, 0;
    }

    /** The image descriptor: a frame inside the canvas, with the cursor at its first pixel. */
    method Begin(cw: nat, ch: nat, x: nat, y: nat, w: nat, h: nat, interlaced: bool, table: seq<byte>) returns (ok: bool)
      requires |table| == 1024 && out != history && out.Length == 4 * (cw * ch) && history.Length == cw * ch
      modifies this
      ensures ok <==> x + w <= cw && y + h <= ch
      ensures ok ==> Valid() && fr == Frame(cw, ch, x, y, w, h, interlaced, table) && drawn == []
      ensures ok ==> canvas == out[..] && marks == history[..]
    {
      hide Quad, Frame.Index, Frame.Number, Rank, ParseOf, StepOf, Shows, Marks;
      if x + w > cw || y + h > ch {
        return false;
      }
      Window(cw, x, y, w, h);
      Interlace(interlaced);
      color_table := table;
      Note(Frame(cw, ch, x, y, w, h, interlaced, table));
      FirstRow(h, interlaced);
      ok := true;
    }

    ghost method Note(f: Frame)
      requires f.Good() && history.Length == f.cw * f.ch
      modifies this`fr, this`drawn, this`row, this`col, this`canvas, this`marks
      ensures fr == f && drawn == [] && row == 0 && col == 0 && canvas == out[..] && marks == history[..]
      ensures Pictured()
    {
      hide Shows, Marks;
      fr, drawn, row, col, canvas, marks := f, [], 0, 0, out[..], history[..];
      NothingDrawn(f, out[..], history[..]);
    }

    /** The frame's bounds, in bytes. */
    method Window(cw: nat, x: nat, y: nat, w: nat, h: nat)
      modifies this`line_size, this`start_x, this`start_y, this`max_x, this`max_y, this`cur_x, this`cur_y
      ensures line_size == 4 * cw && start_x == cur_x == 4 * x && max_x == 4 * (x + w)
      ensures start_y == y * line_size && max_y == (y + h) * line_size
      ensures cur_y == if w == 0 then max_y else start_y
    {
      var line := cw * 4;
      Lines(y, h, line);
      line_size := line;
      start_x, start_y := x * 4, y * line;
      max_x, max_y := x * 4 + w * 4, y * line + h * line;
      cur_x := x * 4;
      cur_y := if w == 0 then y * line + h * line else y * line;
    }

    method Interlace(interlaced: bool)
      modifies this`step, this`parse
      ensures step == (if interlaced then 8 else 1) * line_size && parse == if interlaced then 3 else 0
    {
      if interlaced {
        step, parse := 8 * line_size, 3;
      } else {
        step, parse := line_size, 0;
      }
    }

    /** One pixel of `stbi__out_gif_code`: drawn at the cursor, unless the frame is full. */
    method Plot(v: byte)
      requires Valid()
      modifies this, out, history
      ensures Valid() && fr == old(fr) && canvas == old(canvas) && marks == old(marks)
      ensures drawn == old(drawn) + [v]
    {
      hide Quad, Over, Rank, ParseOf, StepOf, Frame.Index, Frame.Number, Shows, Marks;
      if cur_y >= max_y {
        FullWhenBelow();
        Clipped(fr, out[..], canvas, drawn, v);
        ClippedMark(fr, history[..], marks, drawn, v);
        drawn := drawn + [v];
        return;
      }
      Put(v);
      Move(v);
    }

    lemma FullWhenBelow()
      requires Shape() && (Live() || Full()) && cur_y >= max_y
      ensures Full()
    {
      if Live() {
        LineOrder(fr.y + row, fr.y + fr.h, line_size);
      }
    }

    /** The end of a first frame: every pixel that no data reached becomes the background colour,
        made opaque in the palette itself, unless that is entry 0. */
    method FillBackground(pal: array<byte>, bgindex: byte)
      requires pal.Length == 1024 && out.Length == 4 * history.Length
      requires pal != out && pal != history && out != history
      modifies out, pal
      ensures Backed(old(out[..]), out[..], history[..], old(pal[..]), bgindex)
      ensures pal[..] == if bgindex > 0 && 0 in history[..] then old(pal[..])[4 * bgindex + 3 := 255] else old(pal[..])
    {
      hide Quad, Opaque;
      if bgindex > 0 {
        ghost var was, colours := out[..], pal[..];
        var pi := 0;
        while pi < history.Length
          invariant 0 <= pi <= history.Length
          invariant pal[..] == if 0 in history[..pi] then colours[4 * bgindex + 3 := 255] else colours
          invariant forall q :: 0 <= q < pi ==>
            Quad(out[..], q) == if history[q] == 0 then Opaque(colours, bgindex) else Quad(was, q)
          invariant forall q :: pi <= q < history.Length ==> Quad(out[..], q) == Quad(was, q)
        {
          if history[pi] == 0 {
            CopyBackground(pal, bgindex, pi, colours);
          }
          assert history[..pi + 1] == history[..pi] + [history[pi]];
          pi := pi + 1;
        }
        assert history[..pi] == history[..];
      }
    }

    method CopyBackground(pal: array<byte>, bgindex: byte, pi: nat, ghost colours: seq<byte>)
      requires pal.Length == 1024 && 4 * pi + 4 <= out.Length && pal != out && |colours| == 1024
      requires pal[..] == colours || pal[..] == colours[4 * bgindex + 3 := 255]
      modifies out, pal
      ensures pal[..] == colours[4 * bgindex + 3 := 255]
      ensures Quad(out[..], pi) == Opaque(colours, bgindex)
      ensures forall q: nat :: q != pi ==> Quad(out[..], q) == old(Quad(out[..], q))
    {
      hide Quad, Opaque;
      ghost var was := out[..];
      pal[4 * bgindex + 3] := 255;
      assert pal[..] == colours[4 * bgindex + 3 := 255];
      var i := 4 * bgindex;
      assert pal[..][i] == colours[i] && pal[..][i + 1] == colours[i + 1] && pal[..][i + 2] == colours[i + 2];
      OpaqueIs(colours, bgindex);
      out[4 * pi], out[4 * pi + 1], out[4 * pi + 2], out[4 * pi + 3] := pal[i], pal[i + 1], pal[i + 2], pal[i + 3];
      Overwritten(was, out[..], pi, Opaque(colours, bgindex));
    }

    /** Moves the cursor on, past the pixel just written. */
    method Move(v: byte)
      requires Shape() && Live()
      requires Shows(fr, out[..], canvas, drawn + [v]) && Marks(fr, history[..], marks, drawn + [v])
      modifies this
      ensures Valid() && fr == old(fr) && canvas == old(canvas) && marks == old(marks)
      ensures drawn == old(drawn) + [v]
    {
      hide Rank, ParseOf, StepOf, Shows, Marks;
      drawn := drawn + [v];
      Lines(fr.y + row, StepOf(row, fr.interlaced), line_size);
      cur_x := cur_x + 4;
      col := col + 1;
      if cur_x >= max_x {
        cur_x := start_x;
        cur_y := cur_y + step;
        NextLine();
      }
    }

    /** Writes the pixel at the cursor. */
    method Put(v: byte)
      requires Shape() && Live() && Pictured()
      modifies out, history
      ensures Shows(fr, out[..], canvas, drawn + [v]) && Marks(fr, history[..], marks, drawn + [v])
    {
      hide Quad, Over, Rank, ParseOf, StepOf, Frame.Index, Frame.Number, Shows, Marks;
      ghost var c, r := fr.x + col, fr.y + row;
      ghost var q := fr.Number(c, r);
      AtCursor();
      NumberInside(fr, c, r);
      MarkOne(fr, history[..], marks, drawn, v, c, r);
      ghost var was, before := out[..], history[..];
      var idx := cur_x + cur_y;
      history[idx / 4] := 1;
      assert history[..] == before[q := 1];
      var red, green, blue, alpha := color_table[4 * v], color_table[4 * v + 1], color_table[4 * v + 2], color_table[4 * v + 3];
      if alpha > 128 {
        out[idx], out[idx + 1], out[idx + 2], out[idx + 3] := blue, green, red, alpha;
        Overwritten(was, out[..], q, [blue, green, red, alpha]);
      }
      OverColour(fr, v, Quad(was, q));
      DrawOne(fr, was, out[..], canvas, drawn, v, c, r);
    }

    /** At the end of a row: the row next in rank, or the end of the frame. */
    method NextLine()
      requires Shape() && col == fr.w > 0 && row < fr.h && cur_x == start_x
      requires |drawn| == Rank(row, fr.h, fr.interlaced) * fr.w + col
      requires cur_y == (fr.y + row + StepOf(row, fr.interlaced)) * line_size
      requires step == StepOf(row, fr.interlaced) * line_size && parse == ParseOf(row, fr.interlaced)
      modifies this`cur_y, this`step, this`parse, this`row, this`col
      ensures Shape() && (Live() || Full())
    {
      hide Rank, ParseOf, StepOf;
      ghost var h, r0, s0 := fr.h, row, StepOf(row, fr.interlaced);
      ghost var c := Cursor(r0 + s0, s0, parse);
      ghost var end := Advance(c, h);
      while cur_y >= max_y && parse > 0
        invariant AtRow(c) && parse <= 3 && Advance(c, h) == end
        decreases parse
      {
        c := NextPass(c);
      }
      Below(c);
      NextRow(r0, h, fr.interlaced);
      RowEnds(Rank(r0, h, fr.interlaced), fr.w, h);
      row, col := c.row, 0;
    }

    ghost predicate AtRow(c: Cursor)
      reads this
    {
      cur_y == (fr.y + c.row) * line_size && step == c.step * line_size && parse == c.parse
    }

    lemma Below(c: Cursor)
      requires Shape() && fr.w > 0 && AtRow(c)
      ensures cur_y >= max_y <==> c.row >= fr.h
    {
      LineOrder(fr.y + c.row, fr.y + fr.h, line_size);
    }

    /** The first row of the next pass. */
    method NextPass(ghost c: Cursor) returns (ghost d: Cursor)
      requires Shape() && fr.w > 0 && AtRow(c) && cur_y >= max_y && 0 < parse <= 3
      modifies this`cur_y, this`step, this`parse
      ensures AtRow(d) && parse == old(parse) - 1 && Advance(d, fr.h) == Advance(c, fr.h)
    {
      Below(c);
      HalfStep(parse, line_size, fr.y);
      d := Cursor(TwoTo(parse) / 2, TwoTo(parse), parse - 1);
      step := TwoTo(parse) * line_size;
      cur_y := start_y + step / 2;
      parse := parse - 1;
    }

    /** The cursor's byte offset is that of the next pixel's position. */
    lemma AtCursor()
      requires Shape() && Live()
      ensures fr.Covers(fr.x + col, fr.y + row) && fr.Index(fr.x + col, fr.y + row) == |drawn|
      ensures cur_x + cur_y == 4 * fr.Number(fr.x + col, fr.y + row)
    {
      hide Rank, StepOf, ParseOf;
      assert (fr.y + row) * (4 * fr.cw) == 4 * ((fr.y + row) * fr.cw);
    }
  }

  lemma HalfStep(parse: nat, line: nat, y: nat)
    requires 0 < parse <= 3
    ensures y * line + TwoTo(parse) * line / 2 == (y + TwoTo(parse) / 2) * line
  {
    var half := TwoTo(parse) / 2;
    assert TwoTo(parse) * line == 2 * (half * line);
  }

  lemma RowEnds(k: nat, w: nat, h: nat)
    ensures k * w + w == (k + 1) * w
    ensures k + 1 == h ==> k * w + w == w * h
  {
  }

  lemma FirstRow(h: nat, interlaced: bool)
    ensures Rank(0, h, interlaced) == 0 && StepOf(0, interlaced) == (if interlaced then 8 else 1)
    ensures ParseOf(0, interlaced) == if interlaced then 3 else 0
  {
  }

  lemma NothingDrawn(fr: Frame, out: seq<byte>, history: seq<byte>)
    requires fr.Good() && |history| == fr.cw * fr.ch
    ensures Shows(fr, out, out, []) && Marks(fr, history, history, [])
  {
    hide Quad, Frame.Index, Frame.Number;
    forall c, r | 0 <= c < fr.cw && 0 <= r < fr.ch ensures Marked(fr, history, history, [], c, r) {
      NumberInside(fr, c, r);
    }
  }

  lemma OpaqueIs(colours: seq<byte>, k: byte)
    requires |colours| == 1024
    ensures Opaque(colours, k) == [colours[4 * k], colours[4 * k + 1], colours[4 * k + 2], 255]
  {
  }

  lemma Overwritten(a: seq<byte>, b: seq<byte>, q: nat, v: seq<byte>)
    requires |v| == 4 && 4 * q + 4 <= |a| && b == a[4 * q := v[0]][4 * q + 1 := v[1]][4 * q + 2 := v[2]][4 * q + 3 := v[3]]
    ensures Quad(b, q) == v
    ensures forall p: nat :: p != q ==> Quad(b, p) == Quad(a, p)
  {
  }

  lemma OverColour(fr: Frame, v: byte, was: seq<byte>)
    requires |fr.table| == 1024
    ensures var t := fr.table;
      Over(was, fr.Colour(v))
      == if t[4 * v + 3] > 128 then [t[4 * v + 2], t[4 * v + 1], t[4 * v], t[4 * v + 3]] else was
  {
  }
}
