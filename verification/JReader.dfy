/** The JPEG bit buffer: filling it from the scan, taking symbols and signed values from it. */
module JReading {
  import opened Widths
  import opened Bits
  import Canonical
  import ZLookup
  import opened JStream
  import JBuild
  import JLookup

  /** The first position from `i` that does not hold a fill byte. */
  function SkipFill(scan: seq<byte>, i: nat): (j: nat)
    requires i <= |scan|
    ensures i <= j <= |scan|
    ensures j < |scan| ==> scan[j] != 0xFF
    decreases |scan| - i
  {
    if i < |scan| && scan[i] == 0xFF then SkipFill(scan, i + 1) else i
  }

  /** The entropy-coded bytes from `i` up to a marker or the end of input: a byte FF followed by
      a zero stands for FF (section B.1.1.5 of ITU-T T.81).  Past the end, reads give zero. */
  function Entropy(scan: seq<byte>, i: nat): seq<byte>
    requires i <= |scan|
    decreases |scan| - i
  {
    if i == |scan| then []
    else if scan[i] != 0xFF then [scan[i]] + Entropy(scan, i + 1)
    else
      var j := SkipFill(scan, i + 1);
      if j == |scan| then [0xFF]
      else if scan[j] == 0 then [0xFF] + Entropy(scan, j + 1)
      else []
  }

  /** EXTEND (section F.2.2.1 of ITU-T T.81): a `t`-bit magnitude with its sign. */
  function Extend(v: nat, t: nat): int {
    if t > 0 && v < Pow2(t - 1) then v - Pow2(t) + 1 else v
  }

  class JReader {
    const scan: seq<byte>
    var next: nat
    var code_buffer: nat
    var code_bits: int
    var marker: nat
    var nomore: bool

    /** The scan's entropy-coded bytes, how many are loaded, and the next unread bit. */
    ghost const total: seq<byte>
    ghost var loaded: nat
    ghost var pos: nat

    ghost predicate Valid()
      reads this
    {
      && next <= |scan|
      && loaded <= |total|
      && 0 <= code_bits <= 32
      && code_buffer == Shl(Msb(total, pos, code_bits), 32 - code_bits)
      && (if nomore then loaded == |total| else total[loaded..] == Entropy(scan, next))
      && (loaded < |total| ==> pos + code_bits == 8 * loaded)
      && (loaded == |total| ==> pos + code_bits >= 8 * loaded)
    }

    constructor (scan: seq<byte>)
      ensures this.scan == scan && total == Entropy(scan, 0) && pos == 0 && Valid()
    {
      this.scan := scan;
      total := Entropy(scan, 0);
      next, code_buffer, code_bits, marker, nomore, loaded, pos := 0, 0, 0, 0, false, 0, 0;
      new;
      ShrZero(32);
    }

    method Get8() returns (b: byte)
      requires next <= |scan|
      modifies this`next
      ensures b == if old(next) < |scan| then scan[old(next)] else 0
      ensures next == if old(next) < |scan| then old(next) + 1 else old(next)
    {
      if next < |scan| {
        b := scan[next];
        next := next + 1;
      } else {
        b := 0;
      }
    }

    /** Reads past fill bytes: the first other byte, zero at the end of input. */
    method GetPastFill() returns (c: byte)
      requires next <= |scan|
      modifies this`next
      ensures var j := SkipFill(scan, old(next));
        if j < |scan| then c == scan[j] && next == j + 1 else c == 0 && next == |scan|
    {
      ghost var j := SkipFill(scan, next);
      c := Get8();
      while c == 0xFF
        invariant next <= |scan|
        invariant c == 0xFF ==> SkipFill(scan, next) == j
        invariant c != 0xFF ==> if j < |scan| then c == scan[j] && next == j + 1 else c == 0 && next == |scan|
        decreases |scan| - next, if c == 0xFF then 1 else 0
      {
        c := Get8();
      }
    }

    /** The next entropy-coded byte, zero once there are no more; `stop` means that a marker was
        met just now. */
    method NextByte() returns (b: byte, stop: bool)
      requires Valid()
      modifies this`next, this`marker, this`nomore, this`loaded
      ensures next <= |scan| && loaded <= |total|
      ensures if nomore then loaded == |total| else total[loaded..] == Entropy(scan, next)
      ensures stop ==> old(loaded) == loaded == |total|
      ensures !stop && old(loaded) < |total| ==> b == total[old(loaded)] && loaded == old(loaded) + 1
      ensures !stop && old(loaded) == |total| ==> b == 0 && loaded == old(loaded)
    {
      hide Msb, Shl;
      stop := false;
      if nomore {
        b := 0;
        return;
      }
      ghost var rest := total[loaded..];
      b := Get8();
      if b == 0xFF {
        var c := GetPastFill();
        if c != 0 {
          marker := c;
          nomore := true;
          stop := true;
          return;
        }
      }
      if loaded < |total| {
        assert rest == [rest[0]] + rest[1..];
        loaded := loaded + 1;
        assert total[loaded..] == rest[1..];
      }
    }

    /** `stbi__grow_buffer_unsafe`: fills the buffer above 24 bits unless a marker stops it. */
    method Grow()
      requires Valid() && code_bits <= 24
      modifies this`next, this`marker, this`nomore, this`loaded, this`code_buffer, this`code_bits
      ensures Valid()
      ensures code_bits > 24 || pos + code_bits >= 8 * |total|
    {
      hide Msb, Shl, Entropy;
      var more := true;
      while more
        invariant Valid() && more == (code_bits <= 24)
        decreases 33 - code_bits
      {
        ByteAt(total, pos + code_bits, loaded);
        var b, stop := NextByte();
        if stop {
          return;
        }
        Append(b);
        more := code_bits <= 24;
      }
    }

    /** Appends a byte below the buffered bits. */
    method Append(b: byte)
      requires 0 <= code_bits <= 24 && code_buffer == Shl(Msb(total, pos, code_bits), 32 - code_bits)
      requires b == Msb(total, pos + code_bits, BYTE_BITS)
      modifies this`code_buffer, this`code_bits
      ensures code_bits == old(code_bits) + 8 && code_buffer == Shl(Msb(total, pos, code_bits), 32 - code_bits)
    {
      hide Msb, Shl, Pow2, Or;
      ghost var m := Msb(total, pos, code_bits);
      var low := Shl(b, 24 - code_bits);
      AppendBits(total, pos, code_bits, b);
      OrDisjoint(low, m, 32 - code_bits);
      code_buffer := Or(low, code_buffer);
      code_bits := code_bits + 8;
    }

    /** Takes `n` buffered bits off the top. */
    method Drop(n: nat)
      requires Valid() && n <= code_bits
      modifies this`code_buffer, this`code_bits, this`pos
      ensures Valid() && pos == old(pos) + n && code_bits == old(code_bits) - n
    {
      hide Msb, Shl, Low, Entropy;
      DropBits(WORD, total, pos, code_bits, n);
      code_buffer := Low(Shl(code_buffer, n), 32);
      code_bits := code_bits - n;
      pos := pos + n;
    }

    /** The symbol whose code comes next, as its value in the table; the reader moves past the
        code.  It fails only if no code comes next or the code runs past the scan's end.  On a
        collision it moves ten bits, although the code has at most nine, and gives another symbol's
        value or fails. */
    method HuffDecode(h: JBuild.JHuffman, ghost lens: seq<nat>) returns (v: int)
      requires Valid() && h.Built(lens)
      modifies this`next, this`marker, this`nomore, this`loaded, this`code_buffer, this`code_bits, this`pos
      ensures v >= 0 ==> Valid()
      ensures v >= 0 ==> JSymbolAt(lens, total, old(pos)) >= 0
      ensures !CollidesAt(lens, total, old(pos)) ==> var i := JSymbolAt(lens, total, old(pos));
        if v >= 0 then v == h.values[i] && pos == old(pos) + lens[i] else i < 0 || old(pos) + lens[i] > 8 * |total|
      ensures CollidesAt(lens, total, old(pos)) ==> var i := JLookup.Misread(lens, Msb(total, old(pos), 10));
        if v >= 0 then i >= 0 && v == h.values[i] && pos == old(pos) + 10 else i < 0 || old(pos) + 10 > 8 * |total|
    {
      hide Msb, Shl, Shr, Entropy, JLookup.SymbolOf, JLookup.Misread, JBuild.JHuffman.Lengths, JBuild.JHuffman.Fast, Canonical.Kraft;
      if code_bits < 16 {
        Grow();
      }
      BufferFits(WORD, total, pos, code_bits);
      TopBits(WORD, total, pos, code_bits, Canonical.MAX_BITS);
      TopBits(WORD, total, pos, code_bits, 10);
      var c, k := JLookup.Lookup(h, lens, code_buffer);
      if k == 17 {
        code_bits := code_bits - 16;
        return -1;
      }
      if k > code_bits {
        return -1;
      }
      if c < 0 {
        return -1;
      }
      Drop(k);
      v := h.values[c];
    }

    /** `stbi__extend_receive`: the next `n` bits with their sign. */
    method ExtendReceive(n: nat) returns (v: int)
      requires Valid() && 1 <= n <= 15
      modifies this`next, this`marker, this`nomore, this`loaded, this`code_buffer, this`code_bits, this`pos
      ensures Valid()
      ensures if pos == old(pos) + n then v == Extend(Msb(total, old(pos), n), n)
        else pos == old(pos) && v == 0 && old(pos) + n > 8 * |total|
    {
      hide Msb, Shl, Shr, Low, Entropy, And, Or, Pow2;
      if code_bits < n {
        Grow();
      }
      if code_bits < n {
        return 0;
      }
      ghost var x := code_buffer;
      ghost var m := Msb(total, pos, n);
      BufferFits(WORD, total, pos, code_bits);
      TopBits(WORD, total, pos, code_bits, n);
      TopBits(WORD, total, pos, code_bits, 1);
      DropBits(WORD, total, pos, code_bits, n);
      var sgn := Shr(code_buffer, 31);
      var k := RotateLeft(code_buffer, n);
      JoinSplit(m, Low(x, 32 - n), n);
      code_buffer := k - Low(k, n);
      k := ZLookup.Mask(k, n);
      code_bits := code_bits - n;
      pos := pos + n;
      SignOfMagnitude(total, old(pos), n);
      v := k + if sgn == 0 then 1 - Shl(1, n) else 0;
    }
  }

  lemma ByteAt(total: seq<byte>, at: nat, k: nat)
    requires k < |total| ==> at == 8 * k
    requires k >= |total| ==> at >= 8 * |total|
    ensures Msb(total, at, BYTE_BITS) == if k < |total| then total[k] else 0
  {
    hide Msb;
    if k < |total| {
      MsbByte(total, k, BYTE_BITS);
    } else {
      MsbPastEnd(total, at, BYTE_BITS);
    }
  }

  lemma AppendBits(data: seq<byte>, pos: nat, n: nat, b: nat)
    requires n <= 24 && b < 256 && b == Msb(data, pos + n, BYTE_BITS)
    ensures Shl(b, 24 - n) < Pow2(32 - n)
    ensures Shl(b, 24 - n) + Shl(Msb(data, pos, n), 32 - n) == Shl(Msb(data, pos, n + 8), 24 - n)
  {
    hide Msb, Shl, Pow2;
    var m := Msb(data, pos, n);
    MsbSplit(data, pos, n, BYTE_BITS);
    ShlAdd(Shl(m, BYTE_BITS), b, 24 - n);
    ShlShl(m, BYTE_BITS, 24 - n);
    ShlOrder(256, b, 24 - n);
    ShlOne(BYTE_BITS);
    Pow2Values();
    ShlShl(1, BYTE_BITS, 24 - n);
    ShlOne(32 - n);
  }

  /** DECODE (section F.2.2.3 of ITU-T T.81): the symbol whose code starts at `pos`, or -1. */
  ghost function JSymbolAt(lens: seq<nat>, total: seq<byte>, pos: nat): (i: int)
    requires Canonical.LensAtMost(lens, Canonical.MAX_BITS)
    ensures -1 <= i < |lens|
  {
    JLookup.SymbolOf(lens, Msb(total, pos, Canonical.MAX_BITS))
  }

  /** The code at `pos` is short and belongs to the symbol that the fast table cannot hold. */
  ghost predicate CollidesAt(lens: seq<nat>, total: seq<byte>, pos: nat)
    requires Canonical.LensAtMost(lens, Canonical.MAX_BITS)
  {
    JLookup.Collides(lens, Msb(total, pos, Canonical.MAX_BITS))
  }

  /** `stbi_lrot`: the low bits move up and the top `n` bits come in below them. */
  method RotateLeft(x: nat, n: nat) returns (r: nat)
    requires x < Pow2(32) && 1 <= n <= 31
    ensures r == Shr(x, 32 - n) + Shl(Low(x, 32 - n), n)
    ensures Shl(Low(x, 32 - n), n) == Low(Shl(x, n), 32)
    ensures Shr(x, 32 - n) < Pow2(n)
  {
    hide Shl, Shr, Low, Pow2, Or;
    ghost var h, y := Shr(x, 32 - n), Low(x, 32 - n);
    LowHigh(x, 32 - n);
    ShlAdd(y, Shl(h, 32 - n), n);
    ShlShl(h, 32 - n, n);
    ShlOrder(Pow2(32 - n), y, n);
    ShlOne(32 - n);
    ShlShl(1, 32 - n, n);
    ShlOne(32);
    JoinSplit(Shl(y, n), h, 32);
    JLookup.TopBitsBound(x, n);
    OrDisjoint(h, y, n);
    r := Or(Shr(x, 32 - n), Low(Shl(x, n), 32));
  }

  /** The first bit of a magnitude tells whether it lies in the upper half. */
  lemma SignOfMagnitude(data: seq<byte>, pos: nat, n: nat)
    requires n > 0
    ensures Msb(data, pos, 1) <= 1
    ensures Msb(data, pos, 1) == 0 <==> Msb(data, pos, n) < Pow2(n - 1)
    ensures Shl(1, n) == Pow2(n)
  {
    hide Msb, Shl;
    MsbSplit(data, pos, 1, n - 1);
    MsbBound(data, pos, 1);
    MsbBound(data, pos + 1, n - 1);
    ShlOne(n - 1);
    ShlOne(n);
    ShrZero(n - 1);
    assert Pow2(1) == 2;
  }
}
