/** Well-formed DEFLATE streams described by what they encode, and what they decode to. */
module DeflateStream {
  import opened Bits
  import opened BitStream
  import opened Canonical
  import opened Deflate

  /** A literal byte, or a length-distance pair as code numbers and extra bits. */
  datatype Item = Byte(b: byte) | Pair(k: nat, lx: nat, d: nat, dx: nat)

  datatype Block = StoredBlock(bytes: seq<byte>)
                 | FixedBlock(items: seq<Item>)
                 | DynamicBlock(header: Header, items: seq<Item>)

  /** Code lengths as a dynamic header lists them: one length, the last one again, or zeros. */
  datatype LenRun = One(len: nat) | Again(count: nat) | Zeros(count: nat)

  /** A dynamic header: the lengths of both codes, those of the code-length code with how many of
      them are sent, the runs that list the lengths with where each ends, and the header's end. */
  datatype Header = Header(lit: seq<nat>, dist: seq<nat>, cl: seq<nat>, sent: nat, runs: seq<LenRun>, marks: seq<nat>, end: nat)

  ghost function TokenOf(item: Item): Token {
    match item
    case Byte(b) => Literal(b)
    case Pair(k, lx, d, dx) => Match(LengthBase(k) + lx, DistBase(d) + dx)
  }

  /** The bytes a list of items stands for, after those already output. */
  ghost function Expand(items: seq<Item>, out: seq<byte>): seq<byte>
    requires Expands(items, out)
    decreases |items|
  {
    if items == [] then out else Expand(items[1..], Apply(TokenOf(items[0]), out))
  }

  /** Every match refers back inside the output. */
  ghost predicate Expands(items: seq<Item>, out: seq<byte>)
    decreases |items|
  {
    items != [] ==> Applies(TokenOf(items[0]), out) && Expands(items[1..], Apply(TokenOf(items[0]), out))
  }

  // ----- how items are spelled -----

  /** The codeword of symbol `s` stands at `pos`. */
  ghost predicate Spells(lens: seq<nat>, s: nat, data: seq<byte>, pos: nat) {
    s < |lens| && CodeAt(lens, s, data, pos)
  }

  /** The item stands at `pos` and ends before `next`. */
  ghost predicate ItemAt(data: seq<byte>, lit: seq<nat>, dist: seq<nat>, pos: nat, item: Item, next: nat) {
    match item
    case Byte(b) => Spells(lit, b, data, pos) && next == pos + lit[b]
    case Pair(k, lx, d, dx) =>
      && k < 29 && d < 30
      && Spells(lit, 257 + k, data, pos)
      && var p := pos + lit[257 + k];
         var p1 := p + LengthExtra(k);
         && lx == LE(data, p, LengthExtra(k))
         && Spells(dist, d, data, p1)
         && dx == LE(data, p1 + dist[d], DistExtra(d))
         && next == p1 + dist[d] + DistExtra(d)
  }

  /** The items stand from `pos`, each ending at the next mark, and then the end-of-block code. */
  ghost predicate ItemsAt(data: seq<byte>, lit: seq<nat>, dist: seq<nat>, pos: nat, items: seq<Item>, marks: seq<nat>, end: nat)
    decreases |items|
  {
    && |marks| == |items|
    && (items == [] ==> Spells(lit, 256, data, pos) && end == pos + lit[256])
    && (items != [] ==> ItemAt(data, lit, dist, pos, items[0], marks[0]))
    && (items != [] ==> ItemsAt(data, lit, dist, marks[0], items[1..], marks[1..], end))
  }

  lemma ItemRead(data: seq<byte>, lit: seq<nat>, dist: seq<nat>, pos: nat, item: Item, next: nat)
    requires LensAtMost(lit, MAX_BITS) && LensAtMost(dist, MAX_BITS)
    requires ItemAt(data, lit, dist, pos, item, next)
    ensures ReadToken(data, lit, dist, pos) == Step(TokenOf(item), next)
  {
    hide SymbolAt, CodeAt, LE, LengthBase, DistBase;
    match item
    case Byte(b) =>
      SymbolAtUnique(lit, b, data, pos);
    case Pair(k, lx, d, dx) =>
      SymbolAtUnique(lit, 257 + k, data, pos);
      SymbolAtUnique(dist, d, data, pos + lit[257 + k] + LengthExtra(k));
  }

  /** The end position is past the start, whatever stands between. */
  lemma {:induction false} ItemsEndLater(data: seq<byte>, lit: seq<nat>, dist: seq<nat>, pos: nat, items: seq<Item>,
                                         marks: seq<nat>, end: nat)
    requires ItemsAt(data, lit, dist, pos, items, marks, end)
    ensures pos < end
    decreases |items|
  {
    hide LE;
    if items != [] {
      ItemsEndLater(data, lit, dist, marks[0], items[1..], marks[1..], end);
    }
  }

  /** Items spelled in a block are decoded to what they stand for. */
  lemma {:induction false} ItemsDecode(data: seq<byte>, limit: nat, lit: seq<nat>, dist: seq<nat>, pos: nat,
                                       items: seq<Item>, marks: seq<nat>, out: seq<byte>, end: nat)
    requires LensAtMost(lit, MAX_BITS) && LensAtMost(dist, MAX_BITS)
    requires ItemsAt(data, lit, dist, pos, items, marks, end) && Expands(items, out) && end <= limit
    ensures Tokens(data, limit, lit, dist, pos, out) == Done(Expand(items, out), end)
    decreases |items|
  {
    hide ReadToken, ItemAt, Apply, CodeAt;
    ItemsEndLater(data, lit, dist, pos, items, marks, end);
    if items == [] {
      EndOfBlockRead(data, lit, dist, pos);
    } else {
      var t := TokenOf(items[0]);
      ItemRead(data, lit, dist, pos, items[0], marks[0]);
      ItemsDecode(data, limit, lit, dist, marks[0], items[1..], marks[1..], Apply(t, out), end);
    }
  }

  lemma EndOfBlockRead(data: seq<byte>, lit: seq<nat>, dist: seq<nat>, pos: nat)
    requires LensAtMost(lit, MAX_BITS) && Spells(lit, 256, data, pos)
    ensures ReadToken(data, lit, dist, pos) == Step(EndOfBlock, pos + lit[256])
  {
    SymbolAtUnique(lit, 256, data, pos);
  }

  // ----- how dynamic headers are spelled -----

  ghost predicate Extends(run: LenRun, acc: seq<nat>) {
    run.Again? ==> acc != []
  }

  /** The list of lengths after a run. */
  ghost function Extended(run: LenRun, acc: seq<nat>): seq<nat>
    requires Extends(run, acc)
  {
    match run
    case One(len) => acc + [len]
    case Again(n) => acc + Repeat(acc[|acc| - 1], n)
    case Zeros(n) => acc + Repeat(0, n)
  }

  ghost predicate Lists(runs: seq<LenRun>, acc: seq<nat>)
    decreases |runs|
  {
    runs != [] ==> Extends(runs[0], acc) && Lists(runs[1..], Extended(runs[0], acc))
  }

  ghost function Listed(runs: seq<LenRun>, acc: seq<nat>): seq<nat>
    requires Lists(runs, acc)
    decreases |runs|
  {
    if runs == [] then acc else Listed(runs[1..], Extended(runs[0], acc))
  }

  /** The run stands at `pos` and ends before `next`. */
  ghost predicate RunAt(data: seq<byte>, cl: seq<nat>, pos: nat, run: LenRun, next: nat) {
    match run
    case One(len) => len < 16 && Spells(cl, len, data, pos) && next == pos + cl[len]
    case Again(n) => n >= 3 && ExtraAt(data, cl, pos, 16, 2, n - 3, next)
    case Zeros(n) => n >= 3 && if n <= 10 then ExtraAt(data, cl, pos, 17, 3, n - 3, next) else ExtraAt(data, cl, pos, 18, 7, n - 11, next)
  }

  /** Symbol `c` and `bits` extra bits with value `x`. */
  ghost predicate ExtraAt(data: seq<byte>, cl: seq<nat>, pos: nat, c: nat, bits: nat, x: nat, next: nat) {
    Spells(cl, c, data, pos) && LE(data, pos + cl[c], bits) == x && next == pos + cl[c] + bits
  }

  ghost predicate RunsAt(data: seq<byte>, cl: seq<nat>, pos: nat, runs: seq<LenRun>, marks: seq<nat>, end: nat)
    decreases |runs|
  {
    && |marks| == |runs|
    && (runs == [] ==> end == pos)
    && (runs != [] ==> RunAt(data, cl, pos, runs[0], marks[0]) && RunsAt(data, cl, marks[0], runs[1..], marks[1..], end))
  }

  /** The header stands at `pos`: the three counts, the lengths of the code-length code in their
      order, and the runs, which list the lengths of both codes. */
  ghost predicate HeaderAt(data: seq<byte>, pos: nat, h: Header) {
    && 257 <= |h.lit| && 1 <= |h.dist| && 4 <= h.sent && |h.cl| == 19
    && LE(data, pos, 5) == |h.lit| - 257 && LE(data, pos + 5, 5) == |h.dist| - 1 && LE(data, pos + 10, 4) == h.sent - 4
    && (forall c :: 0 <= c < 19 ==> h.cl[c] == if OrderIndex(c) < h.sent then LE(data, pos + 14 + 3 * OrderIndex(c), 3) else 0)
    && RunsAt(data, h.cl, pos + 14 + 3 * h.sent, h.runs, h.marks, h.end)
    && Lists(h.runs, []) && Listed(h.runs, []) == h.lit + h.dist
    && GoodCode(h.cl) && GoodCode(h.lit) && GoodCode(h.dist)
  }

  lemma RunRead(data: seq<byte>, cl: seq<nat>, pos: nat, acc: seq<nat>, run: LenRun, next: nat)
    requires LensAtMost(cl, MAX_BITS) && |cl| == 19 && RunAt(data, cl, pos, run, next) && Extends(run, acc)
    ensures var r := ReadRun(data, cl, pos, acc);
      r.Run? && r.next == next && Extended(run, acc) == acc + Repeat(r.value, r.count)
  {
    hide SymbolAt, CodeAt, LE;
    var c := match run
      case One(len) => len
      case Again(_) => 16
      case Zeros(n) => if n <= 10 then 17 else 18;
    SymbolAtUnique(cl, c, data, pos);
  }

  lemma {:induction false} ListGrows(runs: seq<LenRun>, acc: seq<nat>)
    requires Lists(runs, acc)
    ensures |acc| <= |Listed(runs, acc)|
    decreases |runs|
  {
    if runs != [] { ListGrows(runs[1..], Extended(runs[0], acc)); }
  }

  lemma {:induction false} RunsRead(data: seq<byte>, cl: seq<nat>, pos: nat, acc: seq<nat>, runs: seq<LenRun>, marks: seq<nat>, end: nat)
    requires LensAtMost(cl, MAX_BITS) && |cl| == 19 && RunsAt(data, cl, pos, runs, marks, end) && Lists(runs, acc)
    ensures |acc| <= |Listed(runs, acc)|
    ensures ReadLens(data, cl, |Listed(runs, acc)|, pos, acc) == Lens(Listed(runs, acc), end)
    decreases |runs|
  {
    hide ReadRun, RunAt, Extended;
    ListGrows(runs, acc);
    if runs != [] {
      var more := Extended(runs[0], acc);
      RunRead(data, cl, pos, acc, runs[0], marks[0]);
      ListGrows(runs[1..], more);
      RunsRead(data, cl, marks[0], more, runs[1..], marks[1..], end);
    }
  }

  /** A dynamic header is read as the two codes it lists. */
  lemma HeaderRead(data: seq<byte>, pos: nat, h: Header)
    requires HeaderAt(data, pos, h)
    ensures DynamicCodes(data, pos) == Codes(h.lit, h.dist, h.end)
  {
    hide LE, ReadLens, RunsAt, Listed, Lists, Kraft;
    assert CodeLengthLens(data, pos + 14, h.sent) == h.cl;
    RunsRead(data, h.cl, pos + 14 + 3 * h.sent, [], h.runs, h.marks, h.end);
    var lens := h.lit + h.dist;
    assert lens[..|h.lit|] == h.lit && lens[|h.lit|..] == h.dist;
  }

  // ----- how blocks are spelled -----

  function Kind(b: Block): nat {
    match b
    case StoredBlock(_) => 0
    case FixedBlock(_) => 1
    case DynamicBlock(_, _) => 2
  }

  /** The block's body stands from `pos`, after its three header bits, to `end`. */
  ghost predicate BodyAt(data: seq<byte>, pos: nat, b: Block, marks: seq<nat>, end: nat) {
    match b
    case StoredBlock(bytes) =>
      var p := AlignUp(pos);
      && |bytes| < 65536
      && LE(data, p, 16) == |bytes| && LE(data, p + 16, 16) == 65535 - |bytes|
      && (p + 32) / 8 + |bytes| <= |data|
      && data[(p + 32) / 8..(p + 32) / 8 + |bytes|] == bytes
      && end == p + 32 + 8 * |bytes|
    case FixedBlock(items) => ItemsAt(data, FixedLit(), FixedDist(), pos, items, marks, end)
    case DynamicBlock(h, items) => HeaderAt(data, pos, h) && ItemsAt(data, h.lit, h.dist, h.end, items, marks, end)
  }

  ghost predicate BlockExpands(b: Block, out: seq<byte>) {
    b.StoredBlock? || Expands(b.items, out)
  }

  ghost function ExpandBlock(b: Block, out: seq<byte>): seq<byte>
    requires BlockExpands(b, out)
  {
    if b.StoredBlock? then out + b.bytes else Expand(b.items, out)
  }

  lemma BodyDecodes(data: seq<byte>, limit: nat, pos: nat, b: Block, marks: seq<nat>, out: seq<byte>, end: nat)
    requires BodyAt(data, pos, b, marks, end) && BlockExpands(b, out) && end <= limit
    ensures BlockBody(data, limit, Kind(b), pos, out) == Done(ExpandBlock(b, out), end)
  {
    hide LE, Tokens, ItemsAt, Expand, DynamicCodes, RunsAt, Listed, Lists, Kraft;
    match b
    case StoredBlock(bytes) =>
      if bytes == [] { assert out + bytes == out; }
    case FixedBlock(items) =>
      FixedCodesGood();
      ItemsDecode(data, limit, FixedLit(), FixedDist(), pos, items, marks, out, end);
    case DynamicBlock(h, items) =>
      HeaderRead(data, pos, h);
      ItemsDecode(data, limit, h.lit, h.dist, h.end, items, marks, out, end);
  }

  /** One spelled block: where it starts, its item marks and where it ends. */
  datatype Placed = Placed(block: Block, marks: seq<nat>, end: nat)

  /** A well-formed stream: blocks one after another from `pos`, only the last marked final,
      every match inside the output so far. */
  ghost predicate StreamAt(data: seq<byte>, pos: nat, blocks: seq<Placed>, out: seq<byte>)
    decreases |blocks|
  {
    && blocks != []
    && LE(data, pos, 1) == (if |blocks| == 1 then 1 else 0)
    && LE(data, pos + 1, 2) == Kind(blocks[0].block)
    && BodyAt(data, pos + 3, blocks[0].block, blocks[0].marks, blocks[0].end)
    && BlockExpands(blocks[0].block, out)
    && (|blocks| > 1 ==> StreamAt(data, blocks[0].end, blocks[1..], ExpandBlock(blocks[0].block, out)))
  }

  /** The bytes a stream stands for. */
  ghost function Contents(data: seq<byte>, pos: nat, blocks: seq<Placed>, out: seq<byte>): seq<byte>
    requires StreamAt(data, pos, blocks, out)
    decreases |blocks|
  {
    var o := ExpandBlock(blocks[0].block, out);
    if |blocks| == 1 then o else Contents(data, blocks[0].end, blocks[1..], o)
  }

  /** The reference decoder accepts every well-formed stream and yields its contents. */
  lemma {:induction false} StreamDecodes(data: seq<byte>, limit: nat, pos: nat, blocks: seq<Placed>, out: seq<byte>)
    requires StreamAt(data, pos, blocks, out) && blocks[|blocks| - 1].end <= limit
    ensures Blocks(data, limit, pos, out) == Done(Contents(data, pos, blocks, out), blocks[|blocks| - 1].end)
    decreases |blocks|
  {
    hide LE, BodyAt, BlockBody, ExpandBlock, BlockExpands;
    var b := blocks[0];
    StreamEnds(data, pos, blocks, out);
    BodyDecodes(data, limit, pos + 3, b.block, b.marks, out, b.end);
    if |blocks| > 1 {
      StreamDecodes(data, limit, b.end, blocks[1..], ExpandBlock(b.block, out));
    }
  }

  lemma {:induction false} StreamEnds(data: seq<byte>, pos: nat, blocks: seq<Placed>, out: seq<byte>)
    requires StreamAt(data, pos, blocks, out)
    ensures pos < blocks[0].end <= blocks[|blocks| - 1].end
    decreases |blocks|
  {
    hide LE, BlockBody, ExpandBlock, BlockExpands;
    var b := blocks[0];
    BodyDecodes(data, b.end, pos + 3, b.block, b.marks, out, b.end);
    if |blocks| > 1 {
      StreamEnds(data, b.end, blocks[1..], ExpandBlock(b.block, out));
    }
  }

  /** So a buffer holding a well-formed stream, with or without a zlib header, inflates to the
      stream's contents. */
  lemma WellFormedInflates(data: seq<byte>, header: bool, blocks: seq<Placed>)
    requires header ==> ZlibHeader(data)
    requires StreamAt(data, if header then 16 else 0, blocks, [])
    requires blocks[|blocks| - 1].end <= 8 * |data|
    ensures Inflate(data, 8 * |data|, header) ==
      Done(Contents(data, if header then 16 else 0, blocks, []), blocks[|blocks| - 1].end)
  {
    StreamDecodes(data, 8 * |data|, if header then 16 else 0, blocks, []);
  }
}
