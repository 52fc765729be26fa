/** A reference decoder for DEFLATE, written from RFC 1951 over bit positions.  It reads the
    stream continued by zeros but never past bit `limit`; the whole stream is
    `limit == 8 * |data|`.  Like the decoder it specifies, it admits incomplete codes, and the
    alphabet sizes 287 and 288, whose extra symbols it rejects on use. */
module Deflate {
  import opened Bits
  import opened BitStream
  import opened Canonical

  datatype Result = Fail | Done(out: seq<byte>, pos: nat)

  // ----- symbols -----

  /** The codeword of symbol `i` starts at bit `pos`. */
  ghost predicate CodeAt(lens: seq<nat>, i: nat, data: seq<byte>, pos: nat)
    requires i < |lens|
  {
    lens[i] > 0 && BE(data, pos, lens[i]) == Code(lens, i)
  }

  /** The symbol whose codeword starts at bit `pos`, or -1. */
  ghost function SymbolAt(lens: seq<nat>, data: seq<byte>, pos: nat): (s: int)
    ensures s == -1 || (0 <= s < |lens| && CodeAt(lens, s, data, pos))
    ensures s == -1 ==> forall i :: 0 <= i < |lens| ==> !CodeAt(lens, i, data, pos)
  {
    if exists i :: 0 <= i < |lens| && CodeAt(lens, i, data, pos)
    then var i :| 0 <= i < |lens| && CodeAt(lens, i, data, pos); i
    else -1
  }

  // ----- copying -----

  /** Appends `n` bytes, each the one `dist` bytes back. */
  ghost function Copy(out: seq<byte>, dist: nat, n: nat): (r: seq<byte>)
    requires 0 < dist <= |out|
    ensures |r| == |out| + n
  {
    if n == 0 then out
    else var r := Copy(out, dist, n - 1); r + [r[|r| - dist]]
  }

  lemma {:induction false} CopyKeeps(out: seq<byte>, dist: nat, m: nat, n: nat)
    requires 0 < dist <= |out| && m <= n
    ensures Copy(out, dist, m) <= Copy(out, dist, n)
  {
    if m < n { CopyKeeps(out, dist, m, n - 1); }
  }

  /** Each copied byte equals the one `dist` before it. */
  lemma CopyBack(out: seq<byte>, dist: nat, n: nat, k: nat)
    requires 0 < dist <= |out| && k < n
    ensures Copy(out, dist, n)[|out| + k] == Copy(out, dist, n)[|out| + k - dist]
  {
    CopyKeeps(out, dist, k + 1, n);
    CopyKeeps(out, dist, k, n);
  }

  /** Copying keeps the output and extends it by its last `dist` bytes, repeated. */
  lemma {:induction false} CopyIsPeriodic(out: seq<byte>, dist: nat, n: nat, k: nat)
    requires 0 < dist <= |out| && k < n
    ensures out <= Copy(out, dist, n)
    ensures Copy(out, dist, n)[|out| + k] == out[|out| - dist + k % dist]
    decreases k
  {
    CopyKeeps(out, dist, 0, n);
    CopyBack(out, dist, n, k);
    if k >= dist {
      ModAdd(k - dist, dist);
      CopyIsPeriodic(out, dist, n, k - dist);
    } else {
      ModSmall(k, dist);
    }
  }

  // ----- tokens -----

  datatype Token = Bad | Literal(value: byte) | EndOfBlock | Match(len: nat, dist: nat)

  /** A token and the position after it. */
  datatype Step = Step(token: Token, next: nat)

  /** Section 3.2.5: after the first eight, each group of four length codes takes one more
      extra bit than the group before; the last code stands for 258 alone. */
  function LengthExtra(k: nat): (e: nat)
    ensures e <= 6
  {
    if k < 8 || k >= 28 then 0 else (k - 4) / 4
  }

  /** Each length code continues where the values of the one before it end. */
  function LengthBase(k: nat): (b: nat)
    ensures b >= 3
  {
    if k == 0 then 3 else if k >= 28 then 258 else LengthBase(k - 1) + Pow2(LengthExtra(k - 1))
  }

  /** Section 3.2.5: after the first four, each pair of distance codes takes one more extra bit. */
  function DistExtra(d: nat): nat {
    if d < 4 then 0 else (d - 2) / 2
  }

  function DistBase(d: nat): (b: nat)
    ensures b > 0
  {
    if d == 0 then 1 else DistBase(d - 1) + Pow2(DistExtra(d - 1))
  }

  ghost function ReadToken(data: seq<byte>, lit: seq<nat>, dist: seq<nat>, pos: nat): (t: Step)
    ensures !t.token.Bad? ==> t.next > pos
    ensures t.token.Match? ==> t.token.len >= 3 && t.token.dist > 0
  {
    var s := SymbolAt(lit, data, pos);
    if s < 0 then Step(Bad, pos)
    else if s < 256 then Step(Literal(s), pos + lit[s])
    else if s == 256 then Step(EndOfBlock, pos + lit[s])
    else if s >= 286 then Step(Bad, pos)
    else ReadMatch(data, dist, s - 257, pos + lit[s])
  }

  /** The rest of a length-distance pair, after the length symbol `257 + k`. */
  ghost function ReadMatch(data: seq<byte>, dist: seq<nat>, k: nat, p: nat): (t: Step)
    ensures t.token.Bad? || (t.token.Match? && t.next > p && t.token.len >= 3 && t.token.dist > 0)
  {
    var d := ReadDistance(data, dist, p + LengthExtra(k));
    if d.value == 0 then Step(Bad, p)
    else Step(Match(LengthBase(k) + LE(data, p, LengthExtra(k)), d.value), d.next)
  }

  datatype Distance = Distance(value: nat, next: nat)

  /** A distance, zero if there is no valid code at `p`. */
  ghost function ReadDistance(data: seq<byte>, dist: seq<nat>, p: nat): (r: Distance)
    ensures r.value > 0 ==> r.next > p
  {
    var d := SymbolAt(dist, data, p);
    if d < 0 || d >= 30 then Distance(0, p)
    else Distance(DistBase(d) + LE(data, p + dist[d], DistExtra(d)), p + dist[d] + DistExtra(d))
  }

  /** The token adds to the output: a literal, or a match that starts inside it. */
  ghost predicate Applies(t: Token, out: seq<byte>) {
    t.Literal? || (t.Match? && 0 < t.dist <= |out|)
  }

  ghost function Apply(t: Token, out: seq<byte>): (r: seq<byte>)
    requires Applies(t, out)
    ensures |r| >= |out|
  {
    if t.Literal? then out + [t.value] else Copy(out, t.dist, t.len)
  }

  /** Decodes tokens up to the end of the block. */
  ghost function Tokens(data: seq<byte>, limit: nat, lit: seq<nat>, dist: seq<nat>, pos: nat, out: seq<byte>): (r: Result)
    ensures r.Done? ==> pos < r.pos <= limit && |r.out| >= |out|
    decreases if pos <= limit then limit - pos + 1 else 0
  {
    var t := ReadToken(data, lit, dist, pos);
    if pos > limit then Fail
    else if t.token.EndOfBlock? then if t.next <= limit then Done(out, t.next) else Fail
    else if Applies(t.token, out) then Tokens(data, limit, lit, dist, t.next, Apply(t.token, out))
    else Fail
  }

  // ----- dynamic block headers -----

  /** Where symbol `c` of the code-length alphabet stands in the order 16, 17, 18, 0, 8, 7, ... */
  function OrderIndex(c: nat): (k: nat)
    requires c < 19
    ensures k < 19
  {
    if c >= 16 then c - 16
    else if c == 0 then 3
    else if c < 8 then 19 - 2 * c
    else 2 * c - 12
  }

  /** The code-length code: `n` three-bit lengths from `pos`, in that order, the rest zero. */
  ghost function CodeLengthLens(data: seq<byte>, pos: nat, n: nat): (lens: seq<nat>)
    ensures |lens| == 19
  {
    seq(19, c requires 0 <= c < 19 => if OrderIndex(c) < n then LE(data, pos + 3 * OrderIndex(c), 3) else 0)
  }

  datatype Lens = NoLens | Lens(lens: seq<nat>, pos: nat)

  /** How a code-length symbol at `pos` extends the list: by how many copies of what. */
  datatype Run = NoRun | Run(value: nat, count: nat, next: nat)

  ghost function ReadRun(data: seq<byte>, cl: seq<nat>, pos: nat, acc: seq<nat>): (r: Run)
    ensures r.Run? ==> r.count > 0 && r.next > pos
  {
    var c := SymbolAt(cl, data, pos);
    if c < 0 || c >= 19 then NoRun
    else
      var p := pos + cl[c];
      if c < 16 then Run(c, 1, p)
      else if c == 16 then if acc == [] then NoRun else Run(acc[|acc| - 1], 3 + LE(data, p, 2), p + 2)
      else if c == 17 then Run(0, 3 + LE(data, p, 3), p + 3)
      else Run(0, 11 + LE(data, p, 7), p + 7)
  }

  function Repeat(v: nat, n: nat): (r: seq<nat>)
    ensures |r| == n && forall i :: 0 <= i < n ==> r[i] == v
  {
    seq(n, _ => v)
  }

  /** Reads run-length coded code lengths until there are exactly `total` of them. */
  ghost function ReadLens(data: seq<byte>, cl: seq<nat>, total: nat, pos: nat, acc: seq<nat>): (r: Lens)
    requires |acc| <= total
    ensures r.Lens? ==> |r.lens| == total && r.pos >= pos
    decreases total - |acc|
  {
    if |acc| == total then Lens(acc, pos)
    else
      match ReadRun(data, cl, pos, acc)
      case NoRun => NoLens
      case Run(v, n, next) =>
        if |acc| + n > total then NoLens
        else ReadLens(data, cl, total, next, acc + Repeat(v, n))
  }

  ghost predicate GoodCode(lens: seq<nat>) {
    LensAtMost(lens, 15) && Kraft(lens, 15)
  }

  datatype Codes = NoCodes | Codes(lit: seq<nat>, dist: seq<nat>, pos: nat)

  /** Section 3.2.7: the code lengths of both alphabets in one list. */
  ghost function DynamicLens(data: seq<byte>, pos: nat): (r: Lens)
    ensures r.Lens? ==> r.pos > pos && |r.lens| == 258 + LE(data, pos, 5) + LE(data, pos + 5, 5)
  {
    var hlit, hdist, hclen := 257 + LE(data, pos, 5), 1 + LE(data, pos + 5, 5), 4 + LE(data, pos + 10, 4);
    var cl := CodeLengthLens(data, pos + 14, hclen);
    if GoodCode(cl) then ReadLens(data, cl, hlit + hdist, pos + 14 + 3 * hclen, []) else NoLens
  }

  ghost function DynamicCodes(data: seq<byte>, pos: nat): (r: Codes)
    ensures r.Codes? ==> r.pos > pos
  {
    var hlit := 257 + LE(data, pos, 5);
    match DynamicLens(data, pos)
    case NoLens => NoCodes
    case Lens(lens, p) =>
      if GoodCode(lens[..hlit]) && GoodCode(lens[hlit..]) then Codes(lens[..hlit], lens[hlit..], p) else NoCodes
  }

  // ----- blocks -----

  /** Section 3.2.6. */
  function FixedLit(): (lens: seq<nat>)
    ensures |lens| == 288
  {
    seq(288, i => if i < 144 then 8 else if i < 256 then 9 else if i < 280 then 7 else 8)
  }

  function FixedDist(): (lens: seq<nat>)
    ensures |lens| == 32
  {
    seq(32, _ => 5)
  }

  function AlignUp(pos: nat): (r: nat)
    ensures pos <= r < pos + 8 && r % 8 == 0
  {
    (pos + 7) / 8 * 8
  }

  /** The `n` bytes from byte `k`, all of them present. */
  function Slice(data: seq<byte>, k: nat, n: nat): seq<byte>
    requires k + n <= |data|
  {
    data[k..k + n]
  }

  /** Section 3.2.4: LEN, its complement, and LEN bytes that the data must hold. */
  ghost function Stored(data: seq<byte>, limit: nat, pos: nat, out: seq<byte>): (r: Result)
    ensures r.Done? ==> pos < r.pos <= limit && |r.out| >= |out|
  {
    var p := AlignUp(pos);
    var len, nlen := LE(data, p, 16), LE(data, p + 16, 16);
    var k := (p + 32) / 8;
    if nlen != 65535 - len || (len > 0 && k + len > |data|) || 8 * (k + len) > limit then Fail
    else Done(if len == 0 then out else out + Slice(data, k, len), 8 * (k + len))
  }

  ghost function BlockBody(data: seq<byte>, limit: nat, kind: nat, pos: nat, out: seq<byte>): (r: Result)
    ensures r.Done? ==> pos < r.pos <= limit && |r.out| >= |out|
  {
    if kind == 0 then Stored(data, limit, pos, out)
    else if kind == 1 then Tokens(data, limit, FixedLit(), FixedDist(), pos, out)
    else if kind == 2 then
      match DynamicCodes(data, pos)
      case NoCodes => Fail
      case Codes(lit, dist, p) => Tokens(data, limit, lit, dist, p, out)
    else Fail
  }

  /** Section 3.2.3: blocks up to the one marked final. */
  ghost function Blocks(data: seq<byte>, limit: nat, pos: nat, out: seq<byte>): (r: Result)
    ensures r.Done? ==> pos < r.pos <= limit && |r.out| >= |out|
    decreases if pos <= limit then limit - pos + 1 else 0
  {
    if pos > limit then Fail
    else
      match BlockBody(data, limit, LE(data, pos + 1, 2), pos + 3, out)
      case Fail => Fail
      case Done(o, p) => if LE(data, pos, 1) == 1 then Done(o, p) else Blocks(data, limit, p, o)
  }

  /** The two-byte zlib header (section 2.2 of RFC 1950): a multiple of 31, method 8, no preset
      dictionary, and something after it. */
  ghost predicate ZlibHeader(data: seq<byte>) {
    && |data| > 2
    && (256 * (data[0] as int) + data[1]) % 31 == 0
    && data[0] % 16 == 8
    && data[1] / 32 % 2 == 0
  }

  ghost function Inflate(data: seq<byte>, limit: nat, header: bool): Result {
    if header then if ZlibHeader(data) then Blocks(data, limit, 16, []) else Fail
    else Blocks(data, limit, 0, [])
  }

  // ----- the codes are usable -----

  /** At most one codeword starts at a position, so `SymbolAt` finds the one that does. */
  lemma SymbolAtUnique(lens: seq<nat>, i: nat, data: seq<byte>, pos: nat)
    requires LensAtMost(lens, MAX_BITS) && i < |lens| && CodeAt(lens, i, data, pos)
    ensures SymbolAt(lens, data, pos) == i
  {
    var s := SymbolAt(lens, data, pos);
    CodeAtIffLeads(lens, i, data, pos);
    CodeAtIffLeads(lens, s, data, pos);
    LeadsUnique(lens, i, s, BE(data, pos, MAX_BITS));
  }

  lemma CodeAtIffLeads(lens: seq<nat>, i: nat, data: seq<byte>, pos: nat)
    requires LensAtMost(lens, MAX_BITS) && i < |lens|
    ensures CodeAt(lens, i, data, pos) <==> Leads(lens, i, BE(data, pos, MAX_BITS))
  {
    hide BE, Code, Shr;
    BETake(data, pos, lens[i], MAX_BITS - lens[i]);
  }

  lemma {:induction false} FixedLitKraft(n: nat)
    requires n <= 288
    ensures LensAtMost(FixedLit(), 15)
    ensures KraftTo(FixedLit(), n, 15) ==
      if n <= 144 then 128 * n
      else if n <= 256 then 18432 + 64 * (n - 144)
      else if n <= 280 then 25600 + 256 * (n - 256)
      else 31744 + 128 * (n - 280)
  {
    if n > 0 {
      FixedLitKraft(n - 1);
      Pow2Values();
    }
  }

  lemma {:induction false} FixedDistKraft(n: nat)
    requires n <= 32
    ensures LensAtMost(FixedDist(), 15)
    ensures KraftTo(FixedDist(), n, 15) == 1024 * n
  {
    if n > 0 {
      FixedDistKraft(n - 1);
      assert Pow2(10) == 1024;
    }
  }

  lemma FixedCodesGood()
    ensures GoodCode(FixedLit()) && GoodCode(FixedDist())
  {
    FixedLitKraft(288);
    FixedDistKraft(32);
    Pow2Values();
  }
}
