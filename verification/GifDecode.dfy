/** `stbi__process_gif_raster`: sub-blocks, bit reservoir, code table and raster together. */
module GifDecode {
  import Widths
  import opened Bits
  import opened BitStream
  import GifCanvas
  import opened GifDraw
  import opened GifLzw

  const GROW_LIMIT: nat := 0x0FFF

  /** The decoder's locals, with the stream it reads from and the raster it draws on. */
  class Decoder {
    const codes: array<Entry>
    const g: Raster
    const input: seq<byte>
    var pos: nat
    // sub-block bytes left, and the reservoir
    var len: nat
    var bits: nat
    var valid_bits: nat
    // the code table
    var cs: nat
    var clear: nat
    var codesize: nat
    var codemask: nat
    var avail: nat
    var oldcode: int
    var first: bool
    // all data of the image, the bytes and the bits of it taken so far, and the reference decoder
    ghost var data: seq<byte>
    ghost var taken: nat
    ghost var at: nat
    ghost var st: State
    ghost var end: nat

    constructor (input: seq<byte>, pos: nat, g: Raster)
      ensures this.input == input && this.pos == pos && this.g == g && codes.Length == MAX_CODES && fresh(codes)
    {
      this.input, this.pos, this.g := input, pos, g;
      codes := new Entry[MAX_CODES](_ => Entry(-1, 0, 0));
      len, bits, valid_bits, cs, clear, codesize, codemask, avail, oldcode, first := 0, 0, 0, 0, 1, 1, 1, 3, -1, true;
    }

    /** The reservoir holds the bits before those not yet taken. */
    ghost predicate Reservoir()
      reads this`pos, this`len, this`bits, this`valid_bits, this`data, this`taken, this`at, this`end
    {
      && taken <= |data| && at + valid_bits == 8 * taken
      && bits == LE(data, at, valid_bits)
      && data[taken..] == BytesAt(input, pos, len) + Deblock(input, pos + len)
      && SamePlace(input, BlocksEnd(input, pos + len), end)
    }

    ghost predicate Table()
      reads this`cs, this`clear, this`codesize, this`codemask, this`avail, this`oldcode, codes
    {
      && codes.Length == MAX_CODES && cs <= MAX_SIZE && clear == Pow2(cs)
      && clear + 2 <= avail <= MAX_CODES
      && RootsSet(codes[..], clear) && Linked(codes[..], clear, avail)
      && (oldcode == -1 || Usable(oldcode, clear, avail)) && (oldcode == -1 ==> avail == clear + 2)
      && 0 < codesize <= MAX_SIZE + 1 && codemask == Pow2(codesize) - 1
    }

    /** The minimum code sizes whose codes have at most twelve bits and start below the first power of
        two; the format allows those up to eight. */
    predicate Standard()
      reads this`cs
    {
      2 <= cs < MAX_SIZE
    }

    /** The decoder is in the reference's state. */
    ghost predicate Follows()
      reads this`cs, this`clear, this`codesize, this`codemask, this`avail, this`oldcode, this`first, this`st, codes
    {
      && Table() && Good(st, cs)
      && st.size == codesize <= MAX_SIZE && st.prev == oldcode && st.started == !first
      && avail == clear + 2 + st.added
      && |st.dict| == (if avail < DICT_LIMIT then avail else DICT_LIMIT)
      && Spells(codes[..], clear, avail, st.dict)
      && (avail < Pow2(codesize) || codesize == MAX_SIZE)
    }

    // ----- drawing a code's string -----

    /** `stbi__out_gif_code`: draws the string of a code, prefix first. */
    method OutCode(code: nat)
      requires Table() && Usable(code, clear, avail) && g.Valid()
      modifies g, g.out, g.history
      ensures g.Valid() && g.fr == old(g.fr) && g.canvas == old(g.canvas) && g.marks == old(g.marks)
      ensures g.drawn == old(g.drawn) + Str(codes[..], clear, avail, code)
      decreases code
    {
      hide Raster.Valid, RootsSet;
      ghost var table := codes[..];
      if codes[code].prefix >= 0 {
        OutCode(codes[code].prefix);
      }
      g.Plot(codes[code].suffix);
    }

    // ----- reading -----

    method Get8() returns (b: byte)
      modifies this`pos
      ensures b == ByteAt(input, old(pos))
      ensures SamePlace(input, pos, old(pos) + 1)
    {
      if pos < |input| {
        b, pos := input[pos], pos + 1;
      } else {
        b := 0;
      }
    }

    /** Adds a byte to the reservoir, from the next sub-block if need be; false after the last. */
    method FillByte() returns (more: bool)
      requires Reservoir() && valid_bits <= MAX_SIZE
      modifies this`pos, this`len, this`bits, this`valid_bits, this`taken
      ensures at == old(at)
      ensures more ==> Reservoir() && taken == old(taken) + 1 && valid_bits == old(valid_bits) + 8
      ensures !more ==> taken == old(taken) == |data| && valid_bits == old(valid_bits) && SamePlace(input, pos, end)
    {
      hide LE, Deblock, BytesAt, BlocksEnd, Shl, Or, Pow2;
      if len == 0 {
        more := NextBlock();
        if !more {
          return;
        }
      }
      ghost var p := pos;
      len := len - 1;
      var b := Get8();
      TakeByte(input, p, pos, len);
      LEByte(data, taken);
      LEBound(data, at, valid_bits);
      LESplit(data, at, valid_bits, Widths.BYTE_BITS);
      OrDisjoint(bits, b, valid_bits);
      assert data[taken..][0] == data[taken] && data[taken..][1..] == data[taken + 1..];
      bits := Or(bits, Shl(b, valid_bits));
      valid_bits, taken := valid_bits + 8, taken + 1;
      more := true;
    }

    method NextBlock() returns (more: bool)
      requires Reservoir() && len == 0
      modifies this`pos, this`len
      ensures more ==> Reservoir() && len > 0
      ensures !more ==> taken == |data| && SamePlace(input, pos, end)
    {
      hide LE, BytesAt;
      ghost var p := pos;
      BytesNone(input, p);
      len := Get8();
      BytesNone(input, pos);
      OpenBlock(input, p, pos);
      more := len > 0;
    }

    method TakeCode() returns (code: nat)
      requires Reservoir() && codesize <= valid_bits && codemask == Pow2(codesize) - 1
      modifies this`bits, this`valid_bits, this`at
      ensures Reservoir() && code == LE(data, old(at), codesize)
      ensures at == old(at) + codesize <= 8 * |data|
    {
      hide LE, Deblock, BytesAt, And, Shr, Low, Pow2;
      AndMask(bits, codesize);
      LETake(data, at, codesize, valid_bits - codesize);
      code := And(bits, codemask);
      bits := Shr(bits, codesize);
      valid_bits, at := valid_bits - codesize, at + codesize;
    }

    // ----- codes -----

    /** The code table's first entries: one for each pixel value. */
    method InitCodes()
      requires codes.Length == MAX_CODES && clear + 2 <= MAX_CODES
      modifies codes
      ensures RootsSet(codes[..], clear)
    {
      for k := 0 to clear
        invariant forall i :: 0 <= i < k ==> codes[i] == Entry(-1, i % 256, i % 256)
      {
        codes[k] := Entry(-1, k % 256, k % 256);
      }
    }

    /** A clear code: back to the table of single values. */
    method ClearCodes()
      requires Table()
      modifies this`codesize, this`codemask, this`avail, this`oldcode, this`first, this`st
      ensures Table() && st == Fresh(cs)
      ensures Standard() ==> Follows()
    {
      hide Linked, Spells, RootsSet, Pow2;
      codesize := cs + 1;
      codemask := Pow2(codesize) - 1;
      avail := clear + 2;
      oldcode := -1;
      first := false;
      st := Fresh(cs);
      FreshGood(cs);
      RootsSpell(codes[..], clear);
      if Standard() {
        RoomAfterClear(cs);
      }
    }

    /** Adds the entry that the previous code and this one make. */
    method AddCode(code: nat) returns (ok: bool)
      requires Table() && oldcode >= 0 && code <= avail && code != clear && code != clear + 1 && code < MAX_CODES
      modifies this`avail, codes
      ensures ok <==> old(avail) < MAX_CODES
      ensures ok ==> avail == old(avail) + 1 && RootsSet(codes[..], clear) && Linked(codes[..], clear, avail)
      ensures ok ==> codes[..] == old(codes[..])[old(avail) := NewEntry(old(codes[..]), oldcode, code, old(avail))]
    {
      hide Linked, Pow2;
      ghost var was, n := codes[..], avail;
      var p := avail;
      avail := avail + 1;
      if avail > MAX_CODES {
        return false;
      }
      var head := codes[oldcode].first;
      codes[p] := Entry(oldcode, head, codes[p].suffix);
      var suffix := codes[code].first;
      if code == avail {
        suffix := head;
      }
      codes[p] := Entry(oldcode, head, suffix);
      assert codes[..] == was[n := NewEntry(was, oldcode, code, n)];
      AddEntry(was, clear, n, NewEntry(was, oldcode, code, n));
      ok := true;
    }

    /** Longer codes, when the table has outgrown them. */
    method Grow()
      requires 0 < avail && 0 < codesize <= MAX_SIZE + 1 && codemask == Pow2(codesize) - 1
      modifies this`codesize, this`codemask
      ensures 0 < codesize <= MAX_SIZE + 1 && codemask == Pow2(codesize) - 1
      ensures avail > GROW_LIMIT ==> codesize == old(codesize)
      ensures old(avail <= Pow2(codesize) && codesize <= MAX_SIZE) ==>
        codesize == if avail == Pow2(old(codesize)) && avail <= GROW_LIMIT then old(codesize) + 1 else old(codesize)
    {
      hide Pow2, And;
      WhenToGrow(avail, codesize);
      if And(avail, codemask) == 0 && avail <= GROW_LIMIT {
        codesize := codesize + 1;
        codemask := Pow2(codesize) - 1;
      }
    }

    /** A code for a string: checked, learnt from, drawn. */
    method StringCode(code: nat) returns (ok: bool)
      requires Table() && g.Valid() && code < MAX_CODES && code != clear && code != clear + 1
      requires Standard() ==> Follows() && code < Pow2(codesize)
      modifies this`avail, this`codesize, this`codemask, this`oldcode, this`st, codes, g, g.out, g.history
      ensures g.Valid() && g.fr == old(g.fr) && g.canvas == old(g.canvas) && g.marks == old(g.marks)
      ensures ok ==> Table()
      ensures Standard() ==> Outcome(old(st), code, ok, old(g.drawn))
    {
      hide Linked, Spells, Pow2, RootsSet, Raster.Valid, Step, Good;
      if Standard() {
        StepCases(st, cs, code, avail, codesize);
      }
      if code > avail || first {
        return false;
      }
      if oldcode >= 0 {
        ok := LaterString(code);
      } else if code == avail {
        ok := false;
      } else {
        FirstString(code);
        ok := true;
      }
    }

    /** The first string after a clear code: a single value, which teaches nothing. */
    method FirstString(code: nat)
      requires Table() && g.Valid() && code < clear && oldcode == -1 && !first
      requires Standard() ==> Follows()
      modifies this`codesize, this`codemask, this`oldcode, this`st, g, g.out, g.history
      ensures g.Valid() && g.fr == old(g.fr) && g.canvas == old(g.canvas) && g.marks == old(g.marks)
      ensures Table()
      ensures Standard() ==> Outcome(old(st), code, true, old(g.drawn))
    {
      hide Linked, Spells, Pow2, Raster.Valid;
      OutCode(code);
      RootString(codes[..], clear, avail, code);
      Grow();
      oldcode := code;
      if Standard() {
        RoomAfterClear(cs);
        Pow2Values();
        st := st.(prev := code);
      }
    }

    method LaterString(code: nat) returns (ok: bool)
      requires Table() && g.Valid() && code < MAX_CODES && code != clear && code != clear + 1
      requires code <= avail && oldcode >= 0 && !first
      requires Standard() ==> Follows() && code < Pow2(codesize)
      modifies this`avail, this`codesize, this`codemask, this`oldcode, this`st, codes, g, g.out, g.history
      ensures g.Valid() && g.fr == old(g.fr) && g.canvas == old(g.canvas) && g.marks == old(g.marks)
      ensures ok ==> Table()
      ensures Standard() ==> Outcome(old(st), code, ok, old(g.drawn))
    {
      hide Linked, Spells, Pow2, RootsSet, Raster.Valid, Good, Learn, Spell, Step;
      ghost var was, n, size := codes[..], avail, codesize;
      if Standard() {
        StepLearns(st, cs, code, avail, codesize);
      }
      ok := AddCode(code);
      if !ok {
        return;
      }
      if Standard() {
        LearnSpells(was, cs, n, st, code);
      }
      OutCode(code);
      Settle(code, n, size);
    }

    /** After a code has been learnt: longer codes if need be, and the code is the previous one. */
    method Settle(code: nat, ghost n: nat, ghost size: nat)
      requires Table() && avail == n + 1 && size == codesize && Usable(code, clear, avail) && oldcode >= 0 && !first
      requires Standard() ==>
        && 0 <= st.prev < |st.dict| && st.dict[st.prev] != [] && code <= |st.dict| && Spell(st, code) != []
        && Good(Learn(st, code), cs) && n == clear + 2 + st.added
        && |st.dict| == (if n < DICT_LIMIT then n else DICT_LIMIT) && st.size == size <= MAX_SIZE
        && (n < Pow2(size) || size == MAX_SIZE)
        && Spells(codes[..], clear, avail, Learn(st, code).dict)
      modifies this`codesize, this`codemask, this`oldcode, this`st
      ensures Table() && (Standard() ==> st == old(Learn(st, code)) && Follows())
    {
      hide Linked, Spells, Pow2, RootsSet, Good, Learn, Spell;
      Grow();
      oldcode := code;
      if Standard() {
        LearnGrows(st, code, n, size);
        st := Learn(st, code);
      }
    }

    /** What a code does is what the reference does with it. */
    ghost predicate Outcome(was: State, code: nat, ok: bool, drawn: seq<byte>)
      reads this, codes, g
    {
      && Good(was, cs)
      && var m := Step(was, cs, code);
      && ok == (m.Go? && Fits(m.st, cs))
      && (ok ==> Follows() && st == m.st && g.drawn == drawn + m.out)
    }

    // ----- the whole image -----

    /** After the end code: past the sub-blocks that are left. */
    method SkipBlocks()
      modifies this`pos, this`len
      ensures SamePlace(input, pos, BlocksEnd(input, old(pos + len)))
    {
      ghost var p := pos + len;
      pos := pos + len;
      len := Get8();
      while len > 0
        invariant len <= 255
        invariant SamePlace(input, if len == 0 then pos else BlocksEnd(input, pos + len), BlocksEnd(input, p))
        decreases len > 0, if pos < |input| then |input| - pos else 0
      {
        ghost var q := pos + len;
        pos := pos + len;
        len := Get8();
        OpenBlock(input, q, pos);
      }
    }

    method Prepare(size: byte)
      requires codes.Length == MAX_CODES && size <= MAX_SIZE
      modifies this`len, this`bits, this`valid_bits, this`cs, this`clear, this`codesize, this`codemask, this`avail,
               this`oldcode, this`first, this`data, this`taken, this`at, this`st, this`end, codes
      ensures Reservoir() && Table() && cs == size && at == 0
      ensures data == Deblock(input, pos) && end == BlocksEnd(input, pos) && st == Unstarted(cs)
      ensures Standard() ==> Follows()
    {
      hide Reservoir, Table, Follows;
      EmptyReservoir();
      PrepareTable(size);
    }

    method EmptyReservoir()
      modifies this`len, this`bits, this`valid_bits, this`data, this`taken, this`at, this`end
      ensures Reservoir() && at == 0 && data == Deblock(input, pos) && end == BlocksEnd(input, pos)
    {
      hide Deblock, BlocksEnd, BytesAt;
      bits, valid_bits, len := 0, 0, 0;
      data, taken, at, end := Deblock(input, pos), 0, 0, BlocksEnd(input, pos);
      BytesNone(input, pos);
      assert data[0..] == data;
    }

    method PrepareTable(size: byte)
      requires codes.Length == MAX_CODES && size <= MAX_SIZE
      modifies this`cs, this`clear, this`codesize, this`codemask, this`avail, this`oldcode, this`first, this`st, codes
      ensures Table() && cs == size && st == Unstarted(cs)
      ensures Standard() ==> Follows()
    {
      hide Linked, Spells, RootsSet, Pow2;
      Pow2Mono(size, MAX_SIZE);
      Pow2Values();
      cs, clear := size, Pow2(size);
      InitCodes();
      codesize, codemask := size + 1, Pow2(size + 1) - 1;
      avail, oldcode := clear + 2, -1;
      first := true;
      st := Unstarted(size);
      FreshGood(cs);
      RootsSpell(codes[..], clear);
      if Standard() {
        RoomAfterClear(cs);
      }
    }

    /** The reference, from here on, completes the pixels given so far to the whole image. */
    ghost predicate OnTrack(whole: Result)
      reads this`cs, this`clear, this`codesize, this`codemask, this`avail, this`oldcode, this`first, this`st,
            this`data, this`at, codes, g`drawn
    {
      Standard() ==> Follows() && whole == Emit(g.drawn, Limited(data, cs, at, st))
    }

    method CodeStep(ghost whole: Result) returns (r: Action)
      requires Reservoir() && Table() && g.Valid() && codesize <= valid_bits && OnTrack(whole)
      modifies this, codes, g, g.out, g.history
      ensures g.Valid() && g.fr == old(g.fr) && g.canvas == old(g.canvas) && g.marks == old(g.marks)
      ensures cs == old(cs) && data == old(data) && end == old(end)
      ensures r == Continue ==> Reservoir() && Table() && OnTrack(whole) && at > old(at)
      ensures r == Finish ==> (Standard() ==> whole == Done(g.drawn)) && SamePlace(input, pos, end)
      ensures r == Error ==> Standard() ==> !whole.Done?
    {
      hide Reservoir, Follows, Deblock, BlocksEnd, LE, Raster.Valid, Good, Linked, RootsSet, Pow2, OnTrack, Run, Within, Step, Outcome;
      ghost var at0, st0, drawn0 := at, st, g.drawn;
      Bounds();
      CodeFits(data, at, codesize);
      BeforeStep(whole);
      var code := TakeCode();
      if code == clear + 1 {
        RestOfBlocks();
        SkipBlocks();
        return Finish;
      }
      var ok := true;
      if code == clear {
        ClearCodes();
        if Standard() {
          ClearedOutcome(st0, code);
        }
      } else {
        ok := StringCode(code);
      }
      AfterStep(whole, st0, code, ok, at0, drawn0);
      r := if ok then Continue else Error;
    }

    /** The reference reads the same code. */
    lemma BeforeStep(whole: Result)
      requires Table() && OnTrack(whole) && at + codesize <= 8 * |data|
      ensures Standard() ==> Follows() && Good(st, cs) && st.size == codesize && whole == Ahead(data, cs, at, st, g.drawn)
      ensures Standard() && LE(data, at, codesize) == clear + 1 ==> whole == Done(g.drawn)
    {
      hide Good, LE, Linked, RootsSet, Pow2, Spells, Run, Within;
      if Standard() {
        RunStep(data, cs, at, st, g.drawn);
      }
    }

    lemma ClearedOutcome(was: State, code: nat)
      requires Standard() && Follows() && Good(was, cs) && code == clear && st == Fresh(cs)
      ensures Outcome(was, code, true, g.drawn)
    {
      hide Good, Linked, RootsSet, Pow2, Spells, Roots;
      assert g.drawn + [] == g.drawn;
    }

    lemma AfterStep(whole: Result, was: State, code: nat, ok: bool, from: nat, drawn: seq<byte>)
      requires Standard() ==> Good(was, cs) && whole == Ahead(data, cs, from, was, drawn)
      requires Standard() ==> code == LE(data, from, was.size) && at == from + was.size <= 8 * |data|
      requires Standard() ==> Outcome(was, code, ok, drawn)
      requires clear == Pow2(cs) && code != clear + 1
      ensures ok ==> OnTrack(whole)
      ensures !ok ==> Standard() ==> !whole.Done?
    {
      hide Good, LE, Follows, Pow2, Learn, Spell, Run, Within, Fits;
    }

    lemma RestOfBlocks()
      requires Reservoir()
      ensures SamePlace(input, BlocksEnd(input, pos + len), end)
    {
    }

    /** `stbi__process_gif_raster`.  For minimum code sizes 2 to 11 it succeeds on exactly the data that
        the reference decodes and in which no stretch between clear codes is too long for the table,
        and gives the raster exactly the reference's pixels; on any data it draws some pixels, and so
        never outside the frame. */
    method ProcessRaster() returns (ok: bool)
      requires codes.Length == MAX_CODES && g.Valid() && g.drawn == []
      modifies this, codes, g, g.out, g.history
      ensures g.Valid() && g.fr == old(g.fr) && g.canvas == old(g.canvas) && g.marks == old(g.marks)
      ensures ByteAt(input, old(pos)) > MAX_SIZE ==> !ok
      ensures 2 <= ByteAt(input, old(pos)) < MAX_SIZE ==>
        (ok <==> Image(input, old(pos)).Done? && ImageWithin(input, old(pos))) && (ok ==> Image(input, old(pos)) == Done(g.drawn))
      ensures ok ==> SamePlace(input, pos, BlocksEnd(input, old(pos) + 1))
    {
      hide Reservoir, Table, Follows, Deblock, BlocksEnd, Raster.Valid, OnTrack, Limited, Image, ImageWithin;
      var size := Get8();
      if size > MAX_SIZE {
        return false;
      }
      Prepare(size);
      SameBytes(input, pos, old(pos) + 1, 0);
      ghost var whole := if ImageWithin(input, old(pos)) then Image(input, old(pos)) else Failed;
      ImageIs(input, old(pos));
      StartsOnTrack(whole);
      ok := DecodeCodes(whole);
    }

    /** The loop over the codes. */
    method DecodeCodes(ghost whole: Result) returns (ok: bool)
      requires Reservoir() && Table() && g.Valid() && OnTrack(whole)
      modifies this, codes, g, g.out, g.history
      ensures g.Valid() && g.fr == old(g.fr) && g.canvas == old(g.canvas) && g.marks == old(g.marks)
      ensures old(Standard()) ==> (ok <==> whole.Done?) && (ok ==> whole == Done(g.drawn))
      ensures ok ==> SamePlace(input, pos, old(end))
    {
      hide Reservoir, Table, Follows, Raster.Valid, OnTrack;
      while true
        invariant Reservoir() && Table() && g.Valid() && OnTrack(whole) && cs == old(cs) && end == old(end)
        invariant g.fr == old(g.fr) && g.canvas == old(g.canvas) && g.marks == old(g.marks)
        decreases 8 * |data| - at, |data| - taken
      {
        Bounds();
        if valid_bits < codesize {
          var more := FillByte();
          if !more {
            OutOfData(whole);
            return true;
          }
        } else {
          var r := CodeStep(whole);
          if r != Continue {
            return r == Finish;
          }
        }
      }
    }

    lemma StartsOnTrack(whole: Result)
      requires g.drawn == [] && at == 0 && st == Unstarted(cs)
      requires Standard() ==> Follows() && whole == Limited(data, cs, at, st)
      ensures OnTrack(whole)
    {
      hide Run, Within, Follows;
    }

    lemma Bounds()
      requires Reservoir() && Table()
      ensures at + valid_bits == 8 * taken && taken <= |data| && 0 < codesize <= MAX_SIZE + 1
    {
    }

    lemma OutOfData(whole: Result)
      requires OnTrack(whole) && at + codesize > 8 * |data|
      ensures Standard() ==> whole == Done(g.drawn)
    {
      hide Good;
    }
  }

  datatype Action = Continue | Finish | Error

  /** A first frame, as `stbi__gif_load_next` draws it: when it fits the canvas and its data decodes,
      every canvas pixel is what the reference says, and the background where no data reaches. */
  method DrawFrame(input: seq<byte>, pos: nat, fr: GifCanvas.Frame, pal: array<byte>, bgindex: byte) returns (ok: bool, out: array<byte>)
    requires |fr.table| == 1024 && pal.Length == 1024
    modifies pal
    ensures ok ==> fr.Good() && out.Length == 4 * (fr.cw * fr.ch)
    ensures 2 <= ByteAt(input, pos) < MAX_SIZE ==> (ok <==> fr.Good() && Image(input, pos).Done? && ImageWithin(input, pos))
    ensures ok && 2 <= ByteAt(input, pos) < MAX_SIZE ==>
      GifCanvas.ShowsFirst(fr, out[..], old(pal[..]), bgindex, Image(input, pos).pixels)
  {
    hide Image, ImageWithin, GifCanvas.Shows, GifCanvas.ShowsFirst, GifCanvas.Marks, GifCanvas.Backed, Raster.Live, Raster.Full;
    var g := new Raster(fr.cw, fr.ch);
    out := g.out;
    ok := g.Begin(fr.cw, fr.ch, fr.x, fr.y, fr.w, fr.h, fr.interlaced, fr.table);
    if !ok {
      return;
    }
    ghost var base, marks := g.out[..], g.history[..];
    var d := new Decoder(input, pos, g);
    ok := d.ProcessRaster();
    if !ok {
      return;
    }
    ghost var a := g.out[..];
    g.FillBackground(pal, bgindex);
    GifCanvas.FilledShows(fr, a, g.out[..], base, g.history[..], marks, old(pal[..]), bgindex, g.drawn);
  }

  lemma CodeFits(data: seq<byte>, at: nat, size: nat)
    requires size <= MAX_SIZE + 1
    ensures LE(data, at, size) < Pow2(size) <= MAX_CODES
  {
    hide LE, Pow2;
    LEBound(data, at, size);
    Pow2Mono(size, MAX_SIZE + 1);
    Pow2Values();
  }

  /** The reference, for data within the limit. */
  ghost function Limited(data: seq<byte>, cs: nat, at: nat, st: State): Result
    requires Good(st, cs)
  {
    if Within(data, cs, at, st) then Run(data, cs, at, st) else Failed
  }

  lemma ImageIs(input: seq<byte>, p: nat)
    ensures Good(Unstarted(ByteAt(input, p)), ByteAt(input, p))
    ensures (if ImageWithin(input, p) then Image(input, p) else Failed)
      == Limited(Deblock(input, p + 1), ByteAt(input, p), 0, Unstarted(ByteAt(input, p)))
  {
    hide Run, Within, Deblock;
    FreshGood(ByteAt(input, p));
  }

  /** One step of the reference, with what it has given so far in front. */
  ghost function Ahead(data: seq<byte>, cs: nat, at: nat, st: State, drawn: seq<byte>): Result
    requires Good(st, cs)
  {
    var m := Step(st, cs, LE(data, at, st.size));
    if m.Stop? then Done(drawn) else if m.Fail? || !Fits(m.st, cs) then Failed
    else Emit(drawn + m.out, Limited(data, cs, at + st.size, m.st))
  }

  lemma RunStep(data: seq<byte>, cs: nat, at: nat, st: State, drawn: seq<byte>)
    requires Good(st, cs) && at + st.size <= 8 * |data|
    ensures Emit(drawn, Limited(data, cs, at, st)) == Ahead(data, cs, at, st, drawn)
  {
    hide Step, Good, LE, Fits;
    var m := Step(st, cs, LE(data, at, st.size));
    if m.Stop? {
      assert drawn + [] == drawn;
    } else if m.Go? {
      var r := Run(data, cs, at + st.size, m.st);
      if r.Done? {
        assert drawn + (m.out + r.pixels) == (drawn + m.out) + r.pixels;
      }
    }
  }

  /** Codes out of range, and codes before a clear code, are errors for the reference too. */
  lemma StepCases(st: State, cs: nat, c: nat, avail: nat, size: nat)
    requires Good(st, cs) && size <= MAX_SIZE && c < Pow2(size) && c != Pow2(cs) && c != Pow2(cs) + 1
    requires |st.dict| == (if avail < DICT_LIMIT then avail else DICT_LIMIT)
    requires st.prev == -1 ==> avail == Pow2(cs) + 2
    ensures c > avail || !st.started || (st.prev == -1 && c == avail) ==> Step(st, cs, c) == Fail
  {
    hide Pow2;
    Pow2Mono(size, MAX_SIZE);
    Pow2Values();
  }

  lemma StepLearns(st: State, cs: nat, c: nat, avail: nat, size: nat)
    requires Good(st, cs) && size <= MAX_SIZE && c < Pow2(size) && c != Pow2(cs) && c != Pow2(cs) + 1
    requires |st.dict| == (if avail < DICT_LIMIT then avail else DICT_LIMIT) && avail == Pow2(cs) + 2 + st.added
    requires st.started && st.prev != -1 && c <= avail
    ensures Usable(st.prev, Pow2(cs), |st.dict|) && st.dict[st.prev] != []
    ensures c <= |st.dict| && (c < avail ==> c < |st.dict|) && (c == avail ==> avail < DICT_LIMIT) && Spell(st, c) != []
    ensures Step(st, cs, c) == Go(Spell(st, c), Learn(st, c)) && Good(Learn(st, c), cs)
    ensures Fits(Learn(st, c), cs) <==> avail + 1 <= MAX_CODES
  {
    hide Pow2;
    Pow2Mono(size, MAX_SIZE);
    Pow2Values();
    assert c == |st.dict| || Usable(c, Pow2(cs), |st.dict|);
    var m := Step(st, cs, c);
  }

  /** The reference's codes grow when the decoder's do. */
  lemma LearnGrows(st: State, c: nat, n: nat, size: nat)
    requires 0 <= st.prev < |st.dict| && st.dict[st.prev] != [] && c <= |st.dict| && Spell(st, c) != []
    requires |st.dict| == (if n < DICT_LIMIT then n else DICT_LIMIT) && st.size == size <= MAX_SIZE
    requires n < Pow2(size) || size == MAX_SIZE
    ensures var r := Learn(st, c);
      && r.size == (if n + 1 == Pow2(size) && n + 1 <= GROW_LIMIT then size + 1 else size) <= MAX_SIZE
      && (n + 1 < Pow2(r.size) || r.size == MAX_SIZE)
      && (n + 1 <= Pow2(size) || n + 1 > GROW_LIMIT)
      && |r.dict| == (if n + 1 < DICT_LIMIT then n + 1 else DICT_LIMIT)
      && r.prev == c && r.started && r.added == st.added + 1
  {
    hide Spell;
    Pow2Values();
    Pow2Mono(size, MAX_SIZE);
  }

  lemma RootString(codes: seq<Entry>, clear: nat, n: nat, c: nat)
    requires RootsSet(codes, clear) && Linked(codes, clear, n) && c < clear <= n
    ensures Usable(c, clear, n) && Str(codes, clear, n, c) == [c % 256]
  {
  }

  lemma RoomAfterClear(cs: nat)
    requires 2 <= cs < MAX_SIZE
    ensures Pow2(cs) + 2 < Pow2(cs + 1) && Pow2(cs) + 2 < DICT_LIMIT
  {
    Pow2Mono(2, cs);
    Pow2Mono(cs + 1, MAX_SIZE);
    Pow2Values();
  }

  lemma WhenToGrow(n: nat, size: nat)
    requires 0 < n && 0 < size <= MAX_SIZE + 1
    ensures And(n, Pow2(size) - 1) == 0 ==> Pow2(size) <= n
    ensures And(n, Pow2(size) - 1) == 0 && n <= GROW_LIMIT ==> size < MAX_SIZE
    ensures n == Pow2(size) ==> And(n, Pow2(size) - 1) == 0
  {
    hide Pow2, And, Low, Shr;
    AndMask(n, size);
    if n < Pow2(size) {
      LowSmall(n, size);
    }
    if size >= MAX_SIZE {
      Pow2Mono(MAX_SIZE, size);
      Pow2Values();
    }
    ShlOne(size);
    JoinSplit(0, 1, size);
  }

  /** The same place, or both past the end of the input. */
  predicate SamePlace(input: seq<byte>, a: nat, b: nat) {
    a == b || (a >= |input| && b >= |input|)
  }

  lemma SameBytes(input: seq<byte>, a: nat, b: nat, n: nat)
    requires SamePlace(input, a, b)
    ensures BytesAt(input, a, n) == BytesAt(input, b, n)
    ensures Deblock(input, a + n) == Deblock(input, b + n)
    ensures SamePlace(input, BlocksEnd(input, a + n), BlocksEnd(input, b + n))
  {
    if a != b {
      forall k | 0 <= k < n ensures BytesAt(input, a, n)[k] == BytesAt(input, b, n)[k] {
        assert BytesAt(input, a, n)[k] == ByteAt(input, a + k) && BytesAt(input, b, n)[k] == ByteAt(input, b + k);
      }
    }
  }

  lemma BytesNone(input: seq<byte>, p: nat)
    ensures BytesAt(input, p, 0) == []
  {
  }

  lemma TakeByte(input: seq<byte>, p: nat, q: nat, n: nat)
    requires SamePlace(input, q, p + 1)
    ensures BytesAt(input, p, n + 1) + Deblock(input, p + n + 1)
         == [ByteAt(input, p)] + (BytesAt(input, q, n) + Deblock(input, q + n))
    ensures SamePlace(input, BlocksEnd(input, q + n), BlocksEnd(input, p + n + 1))
  {
    hide Deblock, BlocksEnd;
    SameBytes(input, q, p + 1, n);
    assert BytesAt(input, p, n + 1) == [ByteAt(input, p)] + BytesAt(input, p + 1, n);
  }

  lemma OpenBlock(input: seq<byte>, p: nat, q: nat)
    requires SamePlace(input, q, p + 1)
    ensures var n := ByteAt(input, p);
      if n == 0 then Deblock(input, p) == [] else Deblock(input, p) == BytesAt(input, q, n) + Deblock(input, q + n)
    ensures SamePlace(input, if ByteAt(input, p) == 0 then q else BlocksEnd(input, q + ByteAt(input, p)), BlocksEnd(input, p))
  {
    SameBytes(input, q, p + 1, ByteAt(input, p));
  }
}
