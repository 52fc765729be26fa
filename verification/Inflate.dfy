/** `stbi__zbuf`: the DEFLATE decoder over its bit reservoir and its growing output buffer. */
module Inflating {
  import opened Widths
  import opened Bits
  import opened BitStream
  import opened Canonical
  import opened Deflate
  import DeflateEnd
  import Reversal
  import opened ZTables
  import ZLookup
  import opened ZBuild
  import ZConst

  const UINT_MAX := 0xFFFF_FFFF

  datatype Status = Ok | Corrupt | NoRoom

  /** A fixed buffer takes `olen` bytes; a growing one doubles within 32-bit sizes and what the
      allocator grants. */
  ghost predicate OutOfRoom(n: nat, olen: nat, expandable: bool, heap_limit: nat) {
    if expandable then n > 0x8000_0000 || heap_limit < 2 * n else n > olen
  }

  class ZBuf {
    const data: seq<byte>
    var zbuffer: nat
    var num_bits: nat
    var hit_zeof_once: bool
    var code_buffer: nat

    var zout: nat
    var out: array<byte>
    const olen: nat
    const z_expandable: bool
    /** The allocator grants requests of at most this many bytes. */
    const heap_limit: nat

    const z_length: ZHuffman
    const z_distance: ZHuffman

    /** The stream position of the next unread bit. */
    ghost var pos: nat

    /** The reservoir holds the next `num_bits` stream bits.  While input remains they are all
        bits already loaded; once it is exhausted they may run into the zeros past its end,
        by at least sixteen bits if the padding was inserted. */
    ghost predicate Reservoir()
      reads this
    {
      && zbuffer <= |data|
      && num_bits <= 32
      && code_buffer == LE(data, pos, num_bits)
      && (pos + num_bits) % 8 == 0
      && (zbuffer < |data| ==> pos + num_bits == 8 * zbuffer && !hit_zeof_once)
      && (zbuffer == |data| ==> pos + num_bits >= 8 * |data| + if hit_zeof_once then 16 else 0)
    }

    /** The written part of the output is `out[..zout]`. */
    ghost predicate Output()
      reads this
    {
      && zout <= out.Length
      && out.Length <= UINT_MAX && (z_expandable ==> 0 < out.Length)
      && (!z_expandable ==> out.Length == olen)
      && z_length.Shape() && z_distance.Shape()
      && z_length.Repr !! z_distance.Repr
      && out !in z_length.Repr && out !in z_distance.Repr
    }

    ghost function Written(): seq<byte>
      requires Output()
      reads this, out
    {
      out[..zout]
    }

    /** An output of `n` bytes can exceed what the buffer may grow to. */
    ghost predicate Lacks(n: nat) {
      OutOfRoom(n, olen, z_expandable, heap_limit)
    }

    constructor (data: seq<byte>, olen: nat, exp: bool, heap_limit: nat)
      requires olen <= UINT_MAX && (exp ==> 0 < olen)
      ensures this.data == data && this.olen == olen && z_expandable == exp && this.heap_limit == heap_limit
      ensures zbuffer == 0 && num_bits == 0 && pos == 0 && Reservoir()
      ensures Output() && Written() == [] && fresh(out) && fresh(z_length.Repr) && fresh(z_distance.Repr)
    {
      this.data := data;
      zbuffer, num_bits, hit_zeof_once, code_buffer, pos := 0, 0, false, 0, 0;
      zout := 0;
      this.olen := olen;
      out := new byte[olen];
      z_expandable := exp;
      this.heap_limit := heap_limit;
      z_length := new ZHuffman();
      z_distance := new ZHuffman();
    }

    predicate AtEnd()
      reads this
    {
      zbuffer >= |data|
    }

    method Get8() returns (b: byte)
      requires zbuffer <= |data|
      modifies this`zbuffer
      ensures b == if old(zbuffer) < |data| then data[old(zbuffer)] else 0
      ensures zbuffer == if old(zbuffer) < |data| then old(zbuffer) + 1 else old(zbuffer)
    {
      if AtEnd() {
        b := 0;
      } else {
        b := data[zbuffer];
        zbuffer := zbuffer + 1;
      }
    }

    /** Refills the reservoir to more than 24 bits.  The branch that would give up on a
        reservoir with stray high bits is never taken. */
    method FillBits()
      requires Reservoir() && num_bits <= 24
      modifies this`zbuffer, this`num_bits, this`code_buffer
      ensures Reservoir() && 24 < num_bits <= 32
    {
      var more := true;
      while more
        invariant Reservoir()
        invariant more == (num_bits <= 24)
        decreases 33 - num_bits
      {
        LEBound(data, pos, num_bits);
        ShlOne(num_bits);
        if code_buffer >= Shl(1, num_bits) {
          assert false;
        }
        LoadByte();
        more := num_bits <= 24;
      }
    }

    method LoadByte()
      requires Reservoir() && num_bits <= 24
      modifies this`zbuffer, this`num_bits, this`code_buffer
      ensures Reservoir() && num_bits == old(num_bits) + 8
    {
      hide LE, Shl, Pow2;
      var b := Get8();
      assert b == LE(data, pos + num_bits, BYTE_BITS) by { NextByte(old(zbuffer)); }
      LEBound(data, pos, num_bits);
      LESplit(data, pos, num_bits, BYTE_BITS);
      code_buffer := ZLookup.OrAbove(code_buffer, b, num_bits);
      num_bits := num_bits + 8;
    }

    lemma NextByte(k: nat)
      requires k < |data| ==> pos + num_bits == 8 * k
      requires k >= |data| ==> pos + num_bits >= 8 * |data|
      ensures LE(data, pos + num_bits, BYTE_BITS) == if k < |data| then data[k] else 0
    {
      hide LE;
      if k < |data| {
        LEByte(data, k);
      } else {
        LEPastEnd(data, pos + num_bits, BYTE_BITS);
      }
    }

    /** Takes `n` bits off the reservoir. */
    method Drop(n: nat)
      requires Reservoir() && n <= num_bits
      modifies this`num_bits, this`code_buffer, this`pos
      ensures Reservoir() && pos == old(pos) + n && num_bits == old(num_bits) - n
    {
      LETake(data, pos, n, num_bits - n);
      code_buffer := Shr(code_buffer, n);
      num_bits := num_bits - n;
      pos := pos + n;
    }

    /** The next `n` bits as a number. */
    method Receive(n: nat) returns (k: nat)
      requires Reservoir() && n <= 16
      modifies this`zbuffer, this`num_bits, this`code_buffer, this`pos
      ensures Reservoir() && pos == old(pos) + n
      ensures old(num_bits) >= n ==> num_bits == old(num_bits) - n
      ensures k == LE(data, old(pos), n)
    {
      if num_bits < n {
        FillBits();
      }
      k := Peek(n);
      Drop(n);
    }

    /** The symbol whose codeword comes next, found by the fast table or else by length; the
        reader moves past exactly that codeword.  It finds none only if there is none, or if
        the padding past the end of the input has already been read into. */
    method HuffmanDecode(z: ZHuffman, ghost lens: seq<nat>) returns (sym: int)
      requires Reservoir() && z.Built(lens)
      modifies this`zbuffer, this`num_bits, this`code_buffer, this`pos, this`hit_zeof_once
      ensures Reservoir()
      ensures sym >= 0 ==> sym == SymbolAt(lens, data, old(pos)) && pos == old(pos) + lens[sym]
      ensures sym < 0 ==> sym == -1 && (SymbolAt(lens, data, old(pos)) == -1 || old(pos) > 8 * |data|)
    {
      hide SymbolAt, LE, BE, Top;
      var more := Refill();
      if !more {
        return -1;
      }
      var cell := Peek(FAST_BITS);
      assert cell < FAST_SIZE by { LEBound(data, pos, FAST_BITS); Pow2Values(); }
      var s, v := ZLookup.FastLookup(z, lens, data, pos, cell);
      if s == 0 {
        var k := PeekReversed();
        s, v := ZLookup.SlowLookup(z, lens, data, pos, k);
        if s == 0 {
          return -1;
        }
      }
      Drop(s);
      sym := v;
    }

    /** Makes sixteen bits available, unless the padding has been read into. */
    method Refill() returns (more: bool)
      requires Reservoir()
      modifies this`zbuffer, this`num_bits, this`code_buffer, this`hit_zeof_once
      ensures Reservoir()
      ensures if more then num_bits >= 16 else pos > 8 * |data|
    {
      if num_bits < 16 {
        if AtEnd() {
          if !hit_zeof_once {
            PadZeros();
          } else {
            return false;
          }
        } else {
          FillBits();
        }
      }
      more := true;
    }

    method Peek(n: nat) returns (k: nat)
      requires Reservoir() && n <= num_bits
      ensures k == LE(data, pos, n)
    {
      LETake(data, pos, n, num_bits - n);
      k := ZLookup.Mask(code_buffer, n);
    }

    /** The next sixteen bits, the first one most significant. */
    method PeekReversed() returns (k: nat)
      requires Reservoir() && num_bits >= 16
      ensures k == BE(data, pos, MAX_BITS) < 0x10000
    {
      k := Reversal.BitReverse(code_buffer, 16);
      ReversedWindow(MAX_BITS);
      Pow2Values();
    }

    lemma ReversedWindow(n: nat)
      requires Reservoir() && n <= num_bits
      ensures Reverse(code_buffer, n) == BE(data, pos, n) < Pow2(n)
    {
      LETake(data, pos, n, num_bits - n);
      ReverseLow(code_buffer, n);
      ReverseLE(data, pos, n);
      BEBound(data, pos, n);
    }

    /** Sixteen implicit zero bits, inserted once. */
    method PadZeros()
      requires Reservoir() && zbuffer == |data| && num_bits < 16 && !hit_zeof_once
      modifies this`num_bits, this`hit_zeof_once
      ensures Reservoir() && num_bits == old(num_bits) + 16
    {
      hide LE, Shl;
      LESplit(data, pos, num_bits, MAX_BITS);
      LEPastEnd(data, pos + num_bits, MAX_BITS);
      ShrZero(num_bits);
      hit_zeof_once := true;
      num_bits := num_bits + 16;
    }

    // ----- output -----

    /** Makes room for `n` bytes after the first `zo`, by doubling.  It fails only when an
        output of `zo + n` bytes can exceed what the buffer may grow to. */
    method Expand(zo: nat, n: nat) returns (ok: bool)
      requires Output() && zo <= out.Length < zo + n
      modifies this`zout, this`out
      ensures Output() && zout == zo
      ensures out[..zo] == old(out[..zo])
      ensures if ok then fresh(out) && zo + n <= out.Length else out == old(out) && Lacks(zo + n)
    {
      zout := zo;
      if !z_expandable {
        return false;
      }
      var limit := out.Length;
      if UINT_MAX - zo < n {
        return false;
      }
      while zo + n > limit
        invariant 0 < limit <= UINT_MAX && limit < 2 * (zo + n)
        invariant out.Length <= limit
        decreases zo + n - limit
      {
        if limit > UINT_MAX / 2 {
          return false;
        }
        limit := 2 * limit;
      }
      if limit > heap_limit {
        return false;
      }
      var q := new byte[limit];
      forall i | 0 <= i < out.Length {
        q[i] := out[i];
      }
      out := q;
      ok := true;
    }

    /** Copies `len` bytes from `dist` back, one after another, so that the copy may overlap
        what it copies. */
    method CopyMatch(zo: nat, len: nat, dist: nat)
      requires Output() && 0 < dist <= zo && zo + len <= out.Length
      modifies out
      ensures out[..zo + len] == Copy(old(out[..zo]), dist, len)
    {
      var p := zo - dist;
      if dist == 1 {
        CopyRun(zo, len, out[p]);
      } else {
        ghost var w := out[..zo];
        for k := 0 to len
          invariant out[..zo + k] == Copy(w, dist, k)
        {
          out[zo + k] := out[p + k];
          assert out[..zo + (k + 1)] == out[..zo + k] + [out[p + k]];
        }
      }
    }

    /** A run of one byte. */
    method CopyRun(zo: nat, len: nat, v: byte)
      requires 0 < zo && zo + len <= out.Length && v == out[zo - 1]
      modifies out
      ensures out[..zo + len] == Copy(old(out[..zo]), 1, len)
    {
      ghost var w := out[..zo];
      for k := 0 to len
        invariant out[..zo + k] == Copy(w, 1, k)
        invariant out[zo + k - 1] == v
      {
        out[zo + k] := v;
        assert out[..zo + (k + 1)] == out[..zo + k] + [v];
      }
    }

    // ----- compressed blocks -----

    /** One literal, end-of-block or length-distance pair. */
    method NextToken(ghost lit: seq<nat>, ghost dist: seq<nat>) returns (t: Token)
      requires Reservoir() && Tables(lit, dist)
      modifies this`zbuffer, this`num_bits, this`code_buffer, this`pos, this`hit_zeof_once
      ensures Reservoir()
      ensures !t.Bad? ==> ReadToken(data, lit, dist, old(pos)) == Step(t, pos)
      ensures t.Bad? ==> var r := ReadToken(data, lit, dist, old(pos)); r.token.Bad? || r.next > 8 * |data|
    {
      hide SymbolAt, CodeAt, ReadMatch, LE, ZHuffman.LengthTables, ZHuffman.SlotTables, ZHuffman.FastTable, Kraft;
      var z := HuffmanDecode(z_length, lit);
      ghost var r := ReadToken(data, lit, dist, old(pos));
      if z < 256 {
        if z < 0 {
          return Bad;
        }
        return Literal(z);
      }
      if z == 256 {
        if hit_zeof_once && num_bits < 16 {
          return Bad;
        }
        return EndOfBlock;
      }
      if z >= 286 {
        return Bad;
      }
      assert r == ReadMatch(data, dist, z - 257, pos);
      t := NextMatch(z - 257, dist);
    }

    method NextMatch(z: nat, ghost dist: seq<nat>) returns (t: Token)
      requires Reservoir() && z < 29 && z_distance.Built(dist)
      modifies this`zbuffer, this`num_bits, this`code_buffer, this`pos, this`hit_zeof_once
      ensures Reservoir()
      ensures !t.Bad? ==> ReadMatch(data, dist, z, old(pos)) == Step(t, pos)
      ensures t.Bad? ==> var r := ReadMatch(data, dist, z, old(pos)); r.token.Bad? || r.next > 8 * |data|
    {
      hide ReadDistance, LE, LengthBase;
      var base, extra := ZConst.LengthCode(z);
      ghost var r := ReadMatch(data, dist, z, pos);
      assert r == (var d := ReadDistance(data, dist, pos + extra);
                   if d.value == 0 then Step(Bad, pos) else Step(Match(base + LE(data, pos, extra), d.value), d.next));
      var len := ReceiveExtra(base, extra);
      var back := NextDistance(dist);
      t := if back == 0 then Bad else Match(len, back);
    }

    /** A distance, or zero if there is none or it was read past the end of the input. */
    method NextDistance(ghost dist: seq<nat>) returns (back: nat)
      requires Reservoir() && z_distance.Built(dist)
      modifies this`zbuffer, this`num_bits, this`code_buffer, this`pos, this`hit_zeof_once
      ensures Reservoir()
      ensures back > 0 ==> ReadDistance(data, dist, old(pos)) == Distance(back, pos)
      ensures back == 0 ==> var r := ReadDistance(data, dist, old(pos)); r.value == 0 || r.next > 8 * |data|
    {
      hide SymbolAt, CodeAt, LE, DistBase, Kraft, ZHuffman.LengthTables, ZHuffman.SlotTables, ZHuffman.FastTable;
      var d := HuffmanDecode(z_distance, dist);
      if d < 0 || d >= 30 {
        return 0;
      }
      var base, extra := ZConst.DistCode(d);
      assert ReadDistance(data, dist, old(pos)) == Distance(base + LE(data, pos, extra), pos + extra);
      back := ReceiveExtra(base, extra);
    }

    /** A base value plus the `n` extra bits that follow, if any. */
    method ReceiveExtra(base: nat, n: nat) returns (r: nat)
      requires Reservoir() && n <= 13
      modifies this`zbuffer, this`num_bits, this`code_buffer, this`pos
      ensures Reservoir() && pos == old(pos) + n
      ensures r == base + LE(data, old(pos), n)
    {
      r := base;
      if n != 0 {
        var e := Receive(n);
        r := r + e;
      }
    }

    /** Decodes tokens up to the end of the block.  Success means that the reference decoder,
        under any limit it stays within, reads the same bits and writes the same bytes;
        `Corrupt` that it fails on this input; `NoRoom` that its output may not fit. */
    method ParseHuffmanBlock(ghost lit: seq<nat>, ghost dist: seq<nat>) returns (r: Status)
      requires Reservoir() && Output() && Tables(lit, dist)
      modifies this`zbuffer, this`num_bits, this`code_buffer, this`pos, this`hit_zeof_once
      modifies this`zout, this`out, out
      ensures Reservoir() && Output() && (out == old(out) || fresh(out))
      ensures r.Ok? ==> forall limit: nat ::
        Tokens(data, limit, lit, dist, old(pos), old(Written())) == Within(limit, Written(), pos)
      ensures r.Corrupt? ==> Tokens(data, 8 * |data|, lit, dist, old(pos), old(Written())).Fail?
      ensures r.NoRoom? ==> forall limit: nat ::
        var t := Tokens(data, limit, lit, dist, old(pos), old(Written())); t.Done? ==> Lacks(|t.out|)
    {
      hide ReadToken, Tokens, Copy, LE, Apply, Kraft, ZHuffman.LengthTables, ZHuffman.SlotTables, ZHuffman.FastTable;
      var zo := zout;
      ghost var p0, w0 := pos, Written();
      while true
        invariant Reservoir() && Output() && zo <= out.Length && (out == old(out) || fresh(out))
        invariant Tables(lit, dist)
        invariant SameTokens(data, lit, dist, p0, w0, pos, out[..zo])
        decreases UINT_MAX + 1 - zo
      {
        ghost var p, w := pos, out[..zo];
        var t := NextToken(lit, dist);
        TokenStep(data, lit, dist, p0, w0, p, w);
        if t.Bad? {
          return Corrupt;
        }
        if t.EndOfBlock? {
          zout := zo;
          return Ok;
        }
        zo, r := Put(zo, t, lit, dist);
        if !r.Ok? {
          return;
        }
      }
    }

    ghost predicate Tables(lit: seq<nat>, dist: seq<nat>)
      reads z_length.Repr, z_distance.Repr
    {
      z_length.Built(lit) && z_distance.Built(dist)
    }

    /** Adds a literal or a match to the output. */
    method Put(zo: nat, t: Token, ghost lit: seq<nat>, ghost dist: seq<nat>) returns (zo': nat, r: Status)
      requires Output() && zo <= out.Length && (t.Literal? || (t.Match? && t.dist > 0 && t.len > 0))
      requires Tables(lit, dist)
      modifies this`zout, this`out, out
      ensures Output() && zo' <= out.Length && (out == old(out) || fresh(out)) && Tables(lit, dist)
      ensures r.Ok? ==> zo < zo' && Applies(t, old(out[..zo])) && out[..zo'] == Apply(t, old(out[..zo]))
      ensures r.Corrupt? ==> !Applies(t, old(out[..zo]))
      ensures r.NoRoom? ==> Applies(t, old(out[..zo])) && Lacks(|Apply(t, old(out[..zo]))|)
    {
      hide Copy, Kraft, ZHuffman.LengthTables, ZHuffman.SlotTables, ZHuffman.FastTable;
      var n := if t.Literal? then 1 else t.len;
      if t.Match? && zo < t.dist {
        return zo, Corrupt;
      }
      if n > out.Length - zo {
        var ok := Expand(zo, n);
        if !ok {
          return zo, NoRoom;
        }
      }
      ghost var w := out[..zo];
      if t.Literal? {
        out[zo] := t.value;
        assert out[..zo + 1] == w + [t.value];
      } else {
        CopyMatch(zo, t.len, t.dist);
      }
      zo', r := zo + n, Ok;
    }

    // ----- dynamic code tables -----

    /** Reads the code tables of a dynamic block. */
    method ComputeHuffmanCodes() returns (ok: bool, ghost lit: seq<nat>, ghost dist: seq<nat>)
      requires Reservoir() && Output()
      modifies this`zbuffer, this`num_bits, this`code_buffer, this`pos, this`hit_zeof_once
      modifies z_length.Repr, z_distance.Repr
      ensures Reservoir()
      ensures ok ==> Tables(lit, dist) && DynamicCodes(data, old(pos)) == Codes(lit, dist, pos)
      ensures !ok ==> var c := DynamicCodes(data, old(pos)); c.NoCodes? || c.pos > 8 * |data|
    {
      hide LE, GoodCode, DynamicLens, ZHuffman.LengthTables, ZHuffman.SlotTables, ZHuffman.FastTable;
      lit, dist := [], [];
      var hlit, lens;
      ok, hlit, lens := ReadDynamicLens();
      if !ok {
        return;
      }
      lit, dist := lens[..hlit], lens[hlit..];
      ok := BuildTables(lens[..hlit], lens[hlit..]);
    }

    method BuildTables(lit: seq<nat>, dist: seq<nat>) returns (ok: bool)
      requires Output() && |lit| <= NSYMS && |dist| <= NSYMS
      requires LensAtMost(lit, MAX_LEN) && LensAtMost(dist, MAX_LEN)
      modifies z_length.Repr, z_distance.Repr
      ensures ok ==> Tables(lit, dist)
      ensures ok <==> GoodCode(lit) && GoodCode(dist)
    {
      hide Kraft, ZHuffman.LengthTables, ZHuffman.SlotTables, ZHuffman.FastTable;
      ok := z_length.Build(lit);
      if !ok {
        return;
      }
      ok := z_distance.Build(dist);
    }

    /** The code lengths of both alphabets in one list, and how many belong to the first. */
    /** The three counts of a dynamic header. */
    method ReadCounts() returns (hlit: nat, hdist: nat, hclen: nat)
      requires Reservoir()
      modifies this`zbuffer, this`num_bits, this`code_buffer, this`pos
      ensures Reservoir() && pos == old(pos) + 14
      ensures hlit == 257 + LE(data, old(pos), 5) <= 288 && hdist == 1 + LE(data, old(pos) + 5, 5) <= 32
      ensures hclen == 4 + LE(data, old(pos) + 10, 4) <= 19
    {
      hide LE, Reservoir;
      HeaderBounds(data, pos);
      hlit := Receive(5);
      hlit := hlit + 257;
      hdist := Receive(5);
      hdist := hdist + 1;
      hclen := Receive(4);
      hclen := hclen + 4;
    }

    method ReadDynamicLens() returns (ok: bool, hlit: nat, lens: seq<nat>)
      requires Reservoir()
      modifies this`zbuffer, this`num_bits, this`code_buffer, this`pos, this`hit_zeof_once
      ensures Reservoir()
      ensures ok ==> DynamicLens(data, old(pos)) == Lens(lens, pos) && LensAtMost(lens, MAX_LEN)
      ensures ok ==> hlit == 257 + LE(data, old(pos), 5) <= NSYMS && hlit <= |lens| <= hlit + 32
      ensures !ok ==> var r := DynamicLens(data, old(pos)); r.NoLens? || r.pos > 8 * |data|
    {
      hide LE, ReadLens, CodeLengthLens, Kraft, Reservoir, ZHuffman.LengthTables, ZHuffman.SlotTables, ZHuffman.FastTable;
      var hdist, hclen;
      hlit, hdist, hclen := ReadCounts();
      lens := [];
      var sizes := ReadCodeLengthCode(hclen);
      var z := new ZHuffman();
      ok := z.Build(sizes);
      if !ok {
        return;
      }
      ok, lens := ReadCodeLengths(z, sizes, hlit + hdist);
    }

    /** The lengths of the code-length code, in the order of the standard. */
    method ReadCodeLengthCode(hclen: nat) returns (sizes: seq<nat>)
      requires Reservoir() && hclen <= 19
      modifies this`zbuffer, this`num_bits, this`code_buffer, this`pos
      ensures Reservoir() && pos == old(pos) + 3 * hclen
      ensures sizes == CodeLengthLens(data, old(pos), hclen) && LensAtMost(sizes, 7)
    {
      hide LE;
      var codelength_sizes := new nat[19](_ => 0);
      ghost var p := pos;
      for i := 0 to hclen
        invariant Reservoir() && pos == p + 3 * i
        invariant forall c :: 0 <= c < 19 ==>
          codelength_sizes[c] == if OrderIndex(c) < i then LE(data, p + 3 * OrderIndex(c), 3) else 0
        invariant forall c :: 0 <= c < 19 ==> codelength_sizes[c] <= 7
      {
        LEBound(data, pos, 3);
        Pow2Values();
        var s := Receive(3);
        OrderInverse(i);
        codelength_sizes[LENGTH_DEZIGZAG[i]] := s;
      }
      sizes := codelength_sizes[..];
    }

    /** The run-length coded lengths of both alphabets, exactly `ntot` of them. */
    method ReadCodeLengths(z: ZHuffman, ghost cl: seq<nat>, ntot: nat) returns (ok: bool, lens: seq<nat>)
      requires Reservoir() && z.Built(cl) && |cl| == 19 && ntot <= 320
      modifies this`zbuffer, this`num_bits, this`code_buffer, this`pos, this`hit_zeof_once
      ensures Reservoir()
      ensures ok ==> ReadLens(data, cl, ntot, old(pos), []) == Lens(lens, pos) && LensAtMost(lens, MAX_LEN) && |lens| == ntot
      ensures !ok ==> var r := ReadLens(data, cl, ntot, old(pos), []); r.NoLens? || r.pos > 8 * |data|
    {
      hide LE, ReadRun, Kraft, ZHuffman.LengthTables, ZHuffman.SlotTables, ZHuffman.FastTable;
      var lencodes := new nat[455];
      var n := 0;
      ghost var p := pos;
      lens := [];
      assert lencodes !in z.Repr;
      while n < ntot
        invariant Reservoir() && z.Built(cl) && n <= ntot
        invariant LensAtMost(lencodes[..n], MAX_LEN)
        invariant ReadLens(data, cl, ntot, p, []) == ReadLens(data, cl, ntot, pos, lencodes[..n])
      {
        ghost var acc := lencodes[..n];
        var value, count := NextRun(z, cl, acc, if n == 0 then -1 else lencodes[n - 1]);
        if count == 0 || ntot - n < count {
          return false, lens;
        }
        SetRange(lencodes, n, value, count);
        n := n + count;
      }
      ok, lens := true, lencodes[..n];
    }

    /** One code-length symbol with its repeat count; count zero means failure. */
    method NextRun(z: ZHuffman, ghost cl: seq<nat>, ghost acc: seq<nat>, last: int) returns (value: nat, count: nat)
      requires Reservoir() && z.Built(cl) && |cl| == 19
      requires if acc == [] then last == -1 else last == acc[|acc| - 1]
      requires LensAtMost(acc, MAX_LEN)
      modifies this`zbuffer, this`num_bits, this`code_buffer, this`pos, this`hit_zeof_once
      ensures Reservoir() && value <= MAX_LEN
      ensures count > 0 ==> ReadRun(data, cl, old(pos), acc) == Run(value, count, pos)
      ensures count == 0 ==> var r := ReadRun(data, cl, old(pos), acc); r.NoRun? || r.next > 8 * |data|
    {
      hide LE, SymbolAt, CodeAt;
      value := 0;
      var c := HuffmanDecode(z, cl);
      if c < 0 || c >= 19 {
        return 0, 0;
      }
      if c < 16 {
        return c, 1;
      }
      if c == 16 {
        count := Receive(2);
        count := count + 3;
        if last < 0 {
          return 0, 0;
        }
        value := last;
      } else if c == 17 {
        count := Receive(3);
        count := count + 3;
      } else {
        count := Receive(7);
        count := count + 11;
      }
    }

    // ----- stored blocks -----

    /** Discards the bits up to the next byte boundary. */
    method Align()
      requires Reservoir()
      modifies this`zbuffer, this`num_bits, this`code_buffer, this`pos
      ensures Reservoir() && pos == AlignUp(old(pos)) && num_bits % 8 == 0
    {
      hide LE;
      AlignDistance(pos, num_bits);
      if num_bits % 8 != 0 {
        var discarded := Receive(num_bits % 8);
      }
    }

    /** The four header bytes: first whole bytes drained from the reservoir, which holds at most
        four, then bytes of input. */
    method StoredHeader() returns (header: array<nat>)
      requires Reservoir() && num_bits % 8 == 0
      modifies this`zbuffer, this`num_bits, this`code_buffer, this`pos
      ensures Reservoir() && num_bits == 0 && pos == old(pos) + 32
      ensures fresh(header) && header.Length == 4
      ensures forall j :: 0 <= j < 4 ==> header[j] == LE(data, old(pos) + 8 * j, BYTE_BITS)
    {
      hide LE;
      header := new nat[4];
      var k := 0;
      ghost var p := pos;
      while num_bits > 0
        invariant Reservoir() && num_bits % 8 == 0 && pos == p + 8 * k && 8 * k + num_bits == old(num_bits) <= 32
        invariant forall j :: 0 <= j < k ==> header[j] == LE(data, p + 8 * j, BYTE_BITS)
        decreases num_bits
      {
        header[k] := Peek(BYTE_BITS);
        Drop(8);
        k := k + 1;
      }
      while k < 4
        invariant Reservoir() && num_bits == 0 && pos == p + 8 * k && k <= 4
        invariant forall j :: 0 <= j < k ==> header[j] == LE(data, p + 8 * j, BYTE_BITS)
      {
        header[k] := NextWholeByte();
        k := k + 1;
      }
    }

    method NextWholeByte() returns (b: nat)
      requires Reservoir() && num_bits == 0
      modifies this`zbuffer, this`pos
      ensures Reservoir() && num_bits == 0 && pos == old(pos) + 8
      ensures b == LE(data, old(pos), BYTE_BITS)
    {
      hide LE;
      NextByte(zbuffer);
      LEEmpty(data, pos);
      LEEmpty(data, pos + 8);
      b := Get8();
      pos := pos + 8;
    }

    /** `memcpy(zout, zbuffer, len)` */
    method CopyIn(len: nat)
      requires Output() && zout + len <= out.Length && zbuffer + len <= |data|
      modifies out
      ensures out[..zout + len] == old(out[..zout]) + data[zbuffer..zbuffer + len]
    {
      ghost var w := out[..zout];
      for i := 0 to len
        invariant out[..zout + i] == w + data[zbuffer..zbuffer + i]
      {
        out[zout + i] := data[zbuffer + i];
        assert out[..zout + (i + 1)] == out[..zout + i] + [data[zbuffer + i]];
      }
    }

    /** A stored block: aligned length, its complement, and that many bytes. */
    method ParseUncompressedBlock() returns (r: Status)
      requires Reservoir() && Output()
      modifies this`zbuffer, this`num_bits, this`code_buffer, this`pos, this`zout, this`out, out
      ensures Reservoir() && Output() && (out == old(out) || fresh(out))
      ensures r.Ok? ==> forall limit: nat ::
        Stored(data, limit, old(pos), old(Written())) == Within(limit, Written(), pos)
      ensures r.Corrupt? ==> forall limit: nat :: Stored(data, limit, old(pos), old(Written())).Fail?
      ensures r.NoRoom? ==> forall limit: nat ::
        var t := Stored(data, limit, old(pos), old(Written())); t.Done? ==> Lacks(|t.out|)
    {
      hide LE, Stored;
      ghost var w := Written();
      StoredCases(data, pos, w);
      var len := StoredLength();
      assert Written() == w;
      if len < 0 {
        return Corrupt;
      }
      var ok := AppendInput(len);
      if !ok {
        return NoRoom;
      }
      SkipBytes(len);
      r := Ok;
    }

    /** Appends the next `len` bytes of input to the output. */
    method AppendInput(len: nat) returns (ok: bool)
      requires Output() && zbuffer + len <= |data|
      modifies this`zout, this`out, out
      ensures Output() && (out == old(out) || fresh(out))
      ensures ok ==> Written() == old(Written()) + Slice(data, zbuffer, len)
      ensures !ok ==> Lacks(|old(Written())| + len)
    {
      if zout + len > out.Length {
        ok := Expand(zout, len);
        if !ok {
          return;
        }
      }
      CopyIn(len);
      zout := zout + len;
      ok := true;
    }

    method SkipBytes(len: nat)
      requires Reservoir() && num_bits == 0 && zbuffer + len <= |data|
      modifies this`zbuffer, this`pos
      ensures Reservoir() && num_bits == 0 && pos == old(pos) + 8 * len
    {
      zbuffer := zbuffer + len;
      pos := pos + 8 * len;
    }

    /** The length field, or -1 if its complement does not match or the data is too short. */
    method StoredLength() returns (len: int)
      requires Reservoir()
      modifies this`zbuffer, this`num_bits, this`code_buffer, this`pos
      ensures Reservoir() && num_bits == 0 && pos == AlignUp(old(pos)) + 32
      ensures len == (if StoredBad(data, old(pos)) then -1 else LE(data, AlignUp(old(pos)), 16))
      ensures len > 0 ==> pos == 8 * zbuffer
      ensures zbuffer + len <= |data|
    {
      hide LE;
      Align();
      ghost var p := pos;
      var header := StoredHeader();
      len := header[1] * 256 + header[0];
      var nlen := header[3] * 256 + header[2];
      HeaderFields(data, p, header[0], header[1], header[2], header[3]);
      if nlen != Xor(len, 0xffff) {
        return -1;
      }
      if zbuffer + len > |data| {
        return -1;
      }
    }

    // ----- the stream -----

    method ParseBlock(kind: nat) returns (r: Status)
      requires Reservoir() && Output()
      modifies this`zbuffer, this`num_bits, this`code_buffer, this`pos, this`hit_zeof_once
      modifies this`zout, this`out, out, z_length.Repr, z_distance.Repr
      ensures Reservoir() && Output() && (out == old(out) || fresh(out))
      ensures r.Ok? ==> forall limit: nat ::
        BlockBody(data, limit, kind, old(pos), old(Written())) == Within(limit, Written(), pos)
      ensures r.Corrupt? ==> BlockBody(data, 8 * |data|, kind, old(pos), old(Written())).Fail?
      ensures r.NoRoom? ==> forall limit: nat ::
        var t := BlockBody(data, limit, kind, old(pos), old(Written())); t.Done? ==> Lacks(|t.out|)
    {
      hide LE, Stored, DynamicCodes, ReadToken, FixedLit, FixedDist, GoodCode, Tokens, Reservoir;
      hide Kraft, ZHuffman.LengthTables, ZHuffman.SlotTables, ZHuffman.FastTable;
      if kind == 0 {
        r := ParseUncompressedBlock();
        return;
      }
      if kind >= 3 {
        return Corrupt;
      }
      ghost var w := Written();
      ghost var lit, dist;
      var ok;
      if kind == 1 {
        FixedLens();
        lit, dist := FixedLit(), FixedDist();
        ok := BuildTables(FixedLit(), FixedDist());
      } else {
        ok, lit, dist := ComputeHuffmanCodes();
      }
      if !ok {
        return Corrupt;
      }
      assert Written() == w;
      r := ParseHuffmanBlock(lit, dist);
    }

    /** The two-byte zlib header; both bytes are consumed. */
    method ParseZlibHeader() returns (ok: bool)
      requires Reservoir() && zbuffer == 0 && num_bits == 0 && pos == 0
      modifies this`zbuffer, this`pos
      ensures Reservoir() && num_bits == 0
      ensures ok <==> ZlibHeader(data)
      ensures ok <==> |data| > 2 && (256 * (data[0] as int) + data[1]) % 31 == 0 && data[0] % 16 == 8 && data[1] / 32 % 2 == 0
      ensures ok ==> pos == 16
    {
      hide LE;
      var cmf := NextWholeByte();
      LEByte(data, 0);
      var flg := NextWholeByte();
      LEByte(data, 1);
      if AtEnd() {
        return false;
      }
      if (cmf * 256 + flg) % 31 != 0 {
        return false;
      }
      var preset := And(flg, 32);
      AndBit5(flg);
      if preset != 0 {
        return false;
      }
      var cm := ZLookup.Mask(cmf, 4);
      LowFour(cmf);
      if cm != 8 {
        return false;
      }
      ok := true;
    }

    /** Decodes the whole stream.

        Success means that the reference decoder, under every limit that covers the bits
        read, consumes those same bits and yields exactly the bytes written; `Corrupt` that the
        stream is not a well-formed DEFLATE stream; `NoRoom` that no complete output fits.  So a
        well-formed stream whose output has room to grow always succeeds. */
    method ParseZlib(parse_header: bool) returns (r: Status)
      requires Reservoir() && Output() && zbuffer == 0 && num_bits == 0 && pos == 0 && Written() == []
      modifies this, out, z_length.Repr, z_distance.Repr
      ensures Reservoir() && Output()
      ensures r.Ok? ==> forall limit: nat :: Inflate(data, limit, parse_header) == Within(limit, Written(), pos)
      ensures r.Corrupt? ==> Inflate(data, 8 * |data|, parse_header).Fail?
      ensures r.NoRoom? ==> forall limit: nat ::
        var t := Inflate(data, limit, parse_header); t.Done? ==> Lacks(|t.out|)
    {
      hide LE, BlockBody, Blocks, ZlibHeader;
      hide Kraft, ZHuffman.LengthTables, ZHuffman.SlotTables, ZHuffman.FastTable;
      if parse_header {
        var ok := ParseZlibHeader();
        if !ok {
          return Corrupt;
        }
      }
      ghost var p0 := pos;
      var last := 0;
      while last == 0
        invariant Reservoir() && Output() && (out == old(out) || fresh(out))
        invariant last == 0 ==> SameBlocks(data, p0, [], pos, Written())
        invariant last != 0 ==> forall limit: nat :: Blocks(data, limit, p0, []) == Within(limit, Written(), pos)
        decreases if last == 0 then (if pos <= 8 * |data| then 8 * |data| - pos + 2 else 1) else 0
      {
        last, r := NextBlock(p0);
        if !r.Ok? {
          return;
        }
      }
      r := Ok;
    }

    /** One block of the stream that began at `p0`; `last` is its final-block bit. */
    method NextBlock(ghost p0: nat) returns (last: nat, r: Status)
      requires Reservoir() && Output() && SameBlocks(data, p0, [], pos, Written())
      modifies this`zbuffer, this`num_bits, this`code_buffer, this`pos, this`hit_zeof_once
      modifies this`zout, this`out, out, z_length.Repr, z_distance.Repr
      ensures Reservoir() && Output() && (out == old(out) || fresh(out))
      ensures r.Ok? ==> pos > old(pos) && old(pos) < 8 * |data|
      ensures r.Ok? && last == 0 ==> SameBlocks(data, p0, [], pos, Written())
      ensures r.Ok? && last != 0 ==> forall limit: nat :: Blocks(data, limit, p0, []) == Within(limit, Written(), pos)
      ensures r.Corrupt? ==> Blocks(data, 8 * |data|, p0, []).Fail?
      ensures r.NoRoom? ==> forall limit: nat ::
        var t := Blocks(data, limit, p0, []); t.Done? ==> Lacks(|t.out|)
    {
      hide LE, BlockBody, Blocks;
      ghost var p, w := pos, Written();
      last := Receive(1);
      var kind := Receive(2);
      ghost var q := pos;
      LEBound(data, p, 1);
      assert Written() == w;
      r := ParseBlock(kind);
      if r.Ok? {
        BlockStep(data, p0, p, kind, q, w, Written(), pos);
      } else {
        Stuck(r, p0, p, kind, q, w);
      }
    }

    /** Where a block fails or lacks room, so does the stream. */
    lemma Stuck(r: Status, p0: nat, p: nat, kind: nat, q: nat, w: seq<byte>)
      requires !r.Ok? && SameBlocks(data, p0, [], p, w) && kind == LE(data, p + 1, 2) && q == p + 3
      requires r.Corrupt? ==> BlockBody(data, 8 * |data|, kind, q, w).Fail?
      requires r.NoRoom? ==> forall limit: nat ::
        var t := BlockBody(data, limit, kind, q, w); t.Done? ==> Lacks(|t.out|)
      ensures r.Corrupt? ==> Blocks(data, 8 * |data|, p0, []).Fail?
      ensures r.NoRoom? ==> forall limit: nat ::
        var t := Blocks(data, limit, p0, []); t.Done? ==> Lacks(|t.out|)
    {
      hide LE, BlockBody, Blocks;
      BlockFails(data, p0, p, kind, q, w);
      if r.NoRoom? { BlockNoRoom(data, p0, p, kind, q, w, olen, z_expandable, heap_limit); }
    }
  }

  /** Whatever the limit, decoding blocks from `p0` goes on as decoding from `p`. */
  ghost predicate SameBlocks(data: seq<byte>, p0: nat, w0: seq<byte>, p: nat, w: seq<byte>) {
    forall limit: nat :: Blocks(data, limit, p0, w0) == Blocks(data, limit, p, w)
  }

  /** One block further. */
  lemma BlockStep(data: seq<byte>, p0: nat, p: nat, kind: nat, q: nat, w: seq<byte>, w': seq<byte>, p': nat)
    requires SameBlocks(data, p0, [], p, w) && kind == LE(data, p + 1, 2) && q == p + 3
    requires forall limit: nat :: BlockBody(data, limit, kind, q, w) == Within(limit, w', p')
    ensures LE(data, p, 1) == 1 ==> forall limit: nat :: Blocks(data, limit, p0, []) == Within(limit, w', p')
    ensures LE(data, p, 1) != 1 ==> SameBlocks(data, p0, [], p', w')
    ensures p' > p && p < 8 * |data|
  {
    hide BlockBody, LE;
    assert BlockBody(data, p', kind, q, w) == Done(w', p');
    if p >= 8 * |data| { DeflateEnd.NothingPastEnd(data, p', p, w); }
    forall limit: nat
      ensures Blocks(data, limit, p0, []) ==
              if LE(data, p, 1) == 1 then Within(limit, w', p') else Blocks(data, limit, p', w')
    {
      assert Blocks(data, limit, p0, []) == Blocks(data, limit, p, w);
      assert BlockBody(data, limit, kind, q, w) == Within(limit, w', p');
    }
  }

  /** The stream fails where a block fails. */
  lemma BlockFails(data: seq<byte>, p0: nat, p: nat, kind: nat, q: nat, w: seq<byte>)
    requires SameBlocks(data, p0, [], p, w) && kind == LE(data, p + 1, 2) && q == p + 3
    ensures forall limit: nat :: BlockBody(data, limit, kind, q, w).Fail? ==> Blocks(data, limit, p0, []).Fail?
  {
    hide BlockBody, LE;
    forall limit: nat ensures Blocks(data, limit, p0, []) == Blocks(data, limit, p, w) {
    }
  }

  /** The stream's output needs at least the room that a block's output needs. */
  lemma BlockNoRoom(data: seq<byte>, p0: nat, p: nat, kind: nat, q: nat, w: seq<byte>, olen: nat, exp: bool, heap_limit: nat)
    requires SameBlocks(data, p0, [], p, w) && kind == LE(data, p + 1, 2) && q == p + 3
    requires forall limit: nat ::
      var t := BlockBody(data, limit, kind, q, w); t.Done? ==> OutOfRoom(|t.out|, olen, exp, heap_limit)
    ensures forall limit: nat ::
      var t := Blocks(data, limit, p0, []); t.Done? ==> OutOfRoom(|t.out|, olen, exp, heap_limit)
  {
    hide BlockBody, LE;
    forall limit: nat | Blocks(data, limit, p0, []).Done?
      ensures OutOfRoom(|Blocks(data, limit, p0, []).out|, olen, exp, heap_limit)
    {
      assert Blocks(data, limit, p0, []) == Blocks(data, limit, p, w);
      var t := BlockBody(data, limit, kind, q, w);
      assert t.Done? ==> OutOfRoom(|t.out|, olen, exp, heap_limit);
    }
  }

  lemma AndBit5(x: nat)
    requires x < 256
    ensures And(x, 32) == 0 <==> x / 32 % 2 == 0
  {
    AndBit(x, 5);
    assert BitAt(x, 5) == x / 2 / 2 / 2 / 2 / 2 % 2;
  }

  lemma {:induction false} AndBit(x: nat, n: nat)
    ensures And(x, Pow2(n)) == if BitAt(x, n) == 1 then Pow2(n) else 0
  {
    if x == 0 {
      BitAtZero(n);
    } else if n > 0 {
      AndBit(x / 2, n - 1);
    } else {
      assert And(x / 2, 0) == 0;
    }
  }

  lemma LowFour(x: nat)
    ensures Low(x, 4) == x % 16
  {
    assert Low(x, 4) == x % 2 + 2 * (x / 2 % 2) + 4 * (x / 2 / 2 % 2) + 8 * (x / 2 / 2 / 2 % 2);
  }

  lemma FixedLens()
    ensures GoodCode(FixedLit()) && GoodCode(FixedDist())
    ensures LensAtMost(FixedLit(), MAX_LEN) && LensAtMost(FixedDist(), MAX_LEN)
  {
    FixedCodesGood();
  }

  /** A stored block at `pos` fails whatever the limit. */
  ghost predicate StoredBad(data: seq<byte>, pos: nat) {
    var p := AlignUp(pos);
    var len, nlen := LE(data, p, 16), LE(data, p + 16, 16);
    nlen != 65535 - len || (len > 0 && (p + 32) / 8 + len > |data|)
  }

  /** Otherwise it is its bytes, within the limit. */
  lemma StoredCases(data: seq<byte>, pos: nat, w: seq<byte>)
    ensures StoredBad(data, pos) ==> forall limit: nat :: Stored(data, limit, pos, w).Fail?
    ensures !StoredBad(data, pos) ==>
      var len, k := LE(data, AlignUp(pos), 16), (AlignUp(pos) + 32) / 8;
      var out := if len == 0 then w else w + Slice(data, k, len);
      forall limit: nat :: Stored(data, limit, pos, w) == Within(limit, out, 8 * (k + len))
  {
    hide LE;
  }

  /** Two little-endian sixteen-bit fields and the complement test between them. */
  lemma HeaderFields(data: seq<byte>, p: nat, b0: nat, b1: nat, b2: nat, b3: nat)
    requires b0 == LE(data, p, BYTE_BITS) && b1 == LE(data, p + 8, BYTE_BITS)
    requires b2 == LE(data, p + 16, BYTE_BITS) && b3 == LE(data, p + 24, BYTE_BITS)
    ensures LE(data, p, 16) == b1 * 256 + b0 < 65536
    ensures LE(data, p + 16, 16) == b3 * 256 + b2
    ensures Xor(b1 * 256 + b0, 0xffff) == 65535 - (b1 * 256 + b0)
  {
    hide LE;
    LESplit(data, p, BYTE_BITS, BYTE_BITS);
    LESplit(data, p + 16, BYTE_BITS, BYTE_BITS);
    ShlByte(b1);
    ShlByte(b3);
    LEBound(data, p, BYTE_BITS);
    LEBound(data, p + 8, BYTE_BITS);
    Pow2Values();
    XorMask(b1 * 256 + b0, 16);
  }

  lemma AlignDistance(pos: nat, bits: nat)
    requires (pos + bits) % 8 == 0
    ensures AlignUp(pos) == pos + bits % 8
  {
    var q, r := pos / 8, pos % 8;
    assert bits % 8 == if r == 0 then 0 else 8 - r;
    assert (pos + 7) / 8 == if r == 0 then q else q + 1;
  }

  /** `memset(a + n, value, count)` */
  method SetRange(a: array<nat>, n: nat, value: nat, count: nat)
    requires n + count <= a.Length
    modifies a
    ensures a[..n + count] == old(a[..n]) + Repeat(value, count)
  {
    for k := 0 to count
      invariant a[..n] == old(a[..n]) && forall i :: n <= i < n + k ==> a[i] == value
    {
      a[n + k] := value;
    }
  }

  const LENGTH_DEZIGZAG: seq<nat> := [16, 17, 18, 0, 8, 7, 9, 6, 10, 5, 11, 4, 12, 3, 13, 2, 14, 1, 15]

  lemma OrderInverse(i: nat)
    requires i < 19
    ensures LENGTH_DEZIGZAG[i] < 19
    ensures forall c :: 0 <= c < 19 ==> (OrderIndex(c) == i <==> c == LENGTH_DEZIGZAG[i])
  {
  }

  lemma HeaderBounds(data: seq<byte>, p: nat)
    ensures LE(data, p, 5) < 32 && LE(data, p + 5, 5) < 32 && LE(data, p + 10, 4) < 16
  {
    LEBound(data, p, 5);
    LEBound(data, p + 5, 5);
    LEBound(data, p + 10, 4);
    Pow2Values();
  }

  /** The result `(out, pos)`, if it stays within the limit. */
  ghost function Within(limit: nat, out: seq<byte>, pos: nat): Result {
    if pos <= limit then Done(out, pos) else Fail
  }

  /** Whatever the limit, decoding from `p0` goes on as decoding from `p`. */
  ghost predicate SameTokens(data: seq<byte>, lit: seq<nat>, dist: seq<nat>, p0: nat, w0: seq<byte>, p: nat, w: seq<byte>) {
    forall limit: nat :: Tokens(data, limit, lit, dist, p0, w0) == Tokens(data, limit, lit, dist, p, w)
  }

  lemma {:induction false} ReverseLow(v: nat, n: nat)
    ensures Reverse(Low(v, n), n) == Reverse(v, n)
    decreases n
  {
    if n > 0 {
      var y := Low(v / 2, n - 1);
      assert (v % 2 + 2 * y) / 2 == y && (v % 2 + 2 * y) % 2 == v % 2;
      ReverseLow(v / 2, n - 1);
    }
  }

  /** One token further. */
  lemma TokenStep(data: seq<byte>, lit: seq<nat>, dist: seq<nat>, p0: nat, w0: seq<byte>, p: nat, w: seq<byte>)
    requires SameTokens(data, lit, dist, p0, w0, p, w)
    ensures var t := ReadToken(data, lit, dist, p);
      Applies(t.token, w) ==> SameTokens(data, lit, dist, p0, w0, t.next, Apply(t.token, w))
    ensures var t := ReadToken(data, lit, dist, p);
      t.token.EndOfBlock? ==> forall limit: nat :: Tokens(data, limit, lit, dist, p0, w0) == Within(limit, w, t.next)
    ensures var t := ReadToken(data, lit, dist, p);
      !Applies(t.token, w) && !t.token.EndOfBlock? ==> forall limit: nat :: Tokens(data, limit, lit, dist, p0, w0).Fail?
    ensures ReadToken(data, lit, dist, p).next > 8 * |data| ==> Tokens(data, 8 * |data|, lit, dist, p0, w0).Fail?
  {
    forall limit: nat ensures Tokens(data, limit, lit, dist, p0, w0) == Tokens(data, limit, lit, dist, p, w) {
    }
    var limit := 8 * |data|;
    assert Tokens(data, limit, lit, dist, p0, w0) == Tokens(data, limit, lit, dist, p, w);
  }

  /** Data with no room for a stream, another method than 8, a dictionary or a wrong check value. */
  predicate Refused(data: seq<byte>) {
    |data| <= 2 || data[0] % 16 != 8 || data[1] / 32 % 2 == 1 || (256 * (data[0] as int) + data[1]) % 31 != 0
  }

  lemma WrongHeader(data: seq<byte>)
    requires Refused(data)
    ensures forall limit :: Inflate(data, limit, true).Fail?
  {
  }

  datatype Option<T> = None | Some(value: T)

  /** Decodes a memory buffer into a growing output (`exp`) or into one of `olen` bytes.

      Every stream that the reference decoder accepts whole, with an output there is room for,
      is decoded to exactly the reference output.  Conversely whatever is returned is the
      reference decoding of the data followed by zeros, up to the bits consumed. */
  method DecodeZlib(data: seq<byte>, olen: nat, exp: bool, heap_limit: nat, parse_header: bool) returns (r: Option<seq<byte>>)
    requires olen <= UINT_MAX && (exp ==> 0 < olen)
    ensures var t := Inflate(data, 8 * |data|, parse_header);
      t.Done? && !OutOfRoom(|t.out|, olen, exp, heap_limit) ==> r == Some(t.out)
    ensures r.Some? ==> exists end: nat :: end <= 8 * |data| + DeflateEnd.SLACK && Inflate(data, end, parse_header) == Done(r.value, end)
    ensures r.Some? && !exp ==> |r.value| <= olen
    ensures parse_header && Refused(data) ==> r == None
  {
    hide Inflate;
    if Refused(data) { WrongHeader(data); }
    var z := new ZBuf(data, olen, exp, heap_limit);
    var status := z.ParseZlib(parse_header);
    if status.Ok? {
      r := Some(z.out[..z.zout]);
      DeflateEnd.InflateEnd(data, z.pos, parse_header);
      assert Inflate(data, z.pos, parse_header) == Done(r.value, z.pos);
      assert Inflate(data, 8 * |data|, parse_header) == Within(8 * |data|, r.value, z.pos);
    } else {
      r := None;
    }
  }
}
