/** GIF's variable-length-code LZW (Appendix F of the GIF89a specification): the reference decoder
    keeps whole strings; the code table of stb_image keeps each as a prefix code and a last byte. */
module GifLzw {
  import opened Bits
  import BitStream

  const MAX_CODES: nat := 8192
  const DICT_LIMIT: nat := 4096
  const MAX_SIZE: nat := 12

  // ----- sub-blocks -----

  function ByteAt(input: seq<byte>, p: nat): byte {
    if p < |input| then input[p] else 0
  }

  /** `n` bytes from `p`; bytes past the end of the input read as zero. */
  function BytesAt(input: seq<byte>, p: nat, n: nat): (r: seq<byte>)
    ensures |r| == n
  {
    seq<byte>(n, k requires 0 <= k => ByteAt(input, p + k))
  }

  /** The data of the sub-blocks from `p` up to the empty one that ends them. */
  function Deblock(input: seq<byte>, p: nat): seq<byte>
    decreases if p < |input| then |input| - p else 0
  {
    var n := ByteAt(input, p);
    if n == 0 then [] else BytesAt(input, p + 1, n) + Deblock(input, p + 1 + n)
  }

  /** Where the sub-blocks from `p` end. */
  function BlocksEnd(input: seq<byte>, p: nat): nat
    decreases if p < |input| then |input| - p else 0
  {
    var n := ByteAt(input, p);
    if n == 0 then p + 1 else BlocksEnd(input, p + 1 + n)
  }

  // ----- the reference decoder -----

  /** The strings of the codes so far, the bits of a code, the previous code (or -1 after a clear
      code), whether a clear code has been seen, and how many codes followed the last one. */
  datatype State = State(dict: seq<seq<byte>>, size: nat, prev: int, started: bool, added: nat)

  datatype Move = Stop | Fail | Go(out: seq<byte>, st: State)

  datatype Result = Failed | Done(pixels: seq<byte>)

  /** Every pixel value on its own, and the two control codes, which stand for no string. */
  function Roots(clear: nat): (d: seq<seq<byte>>)
    ensures |d| == clear + 2
  {
    seq(clear + 2, k requires 0 <= k => if k < clear then [k % 256] else [])
  }

  function Fresh(cs: nat): State {
    State(Roots(Pow2(cs)), cs + 1, -1, true, 0)
  }

  /** Before the first clear code. */
  function Unstarted(cs: nat): State {
    Fresh(cs).(started := false)
  }

  /** A code that stands for a string. */
  predicate Usable(k: int, clear: nat, n: nat) {
    0 <= k < n && k != clear && k != clear + 1
  }

  ghost predicate Good(st: State, cs: nat) {
    var clear := Pow2(cs);
    && clear + 2 <= |st.dict| && cs + 1 <= st.size
    && (st.prev == -1 || Usable(st.prev, clear, |st.dict|))
    && forall k :: Usable(k, clear, |st.dict|) ==> st.dict[k] != []
  }

  /** The string of code `c`, which is either in the dictionary or about to enter it. */
  function Spell(st: State, c: nat): (s: seq<byte>)
    requires 0 <= st.prev < |st.dict| && st.dict[st.prev] != []
    requires c <= |st.dict|
  {
    if c < |st.dict| then st.dict[c] else st.dict[st.prev] + [st.dict[st.prev][0]]
  }

  /** The dictionary with the previous string, extended by the first byte of this one, until it is
      full; codes get longer when the dictionary outgrows them. */
  function Learn(st: State, c: nat): (r: State)
    requires 0 <= st.prev < |st.dict| && st.dict[st.prev] != [] && c <= |st.dict| && Spell(st, c) != []
  {
    var dict := if |st.dict| < DICT_LIMIT then st.dict + [st.dict[st.prev] + [Spell(st, c)[0]]] else st.dict;
    var size := if |st.dict| < DICT_LIMIT && |dict| == Pow2(st.size) && st.size < MAX_SIZE then st.size + 1 else st.size;
    State(dict, size, c, true, st.added + 1)
  }

  ghost function Step(st: State, cs: nat, c: nat): (m: Move)
    requires Good(st, cs)
    ensures m.Go? ==> Good(m.st, cs)
  {
    var clear := Pow2(cs);
    if c == clear then FreshGood(cs); Go([], Fresh(cs))
    else if c == clear + 1 then Stop
    else if !st.started then Fail
    else if st.prev == -1 then (if c < clear then Go([c % 256], st.(prev := c)) else Fail)
    else if c > |st.dict| || (c == |st.dict| && c >= DICT_LIMIT) then Fail
    else Go(Spell(st, c), Learn(st, c))
  }

  lemma FreshGood(cs: nat)
    ensures Good(Fresh(cs), cs)
  {
  }

  function Emit(s: seq<byte>, r: Result): Result {
    if r.Done? then Done(s + r.pixels) else r
  }

  /** The pixels of the codes from bit `pos` on; running out of data ends the image. */
  ghost function Run(data: seq<byte>, cs: nat, pos: nat, st: State): Result
    requires Good(st, cs)
    decreases if pos < 8 * |data| then 8 * |data| - pos else 0
  {
    if pos + st.size > 8 * |data| then Done([])
    else
      var m := Step(st, cs, BitStream.LE(data, pos, st.size));
      if m.Stop? then Done([])
      else if m.Fail? then Failed
      else Emit(m.out, Run(data, cs, pos + st.size, m.st))
  }

  /** The codes that followed the last clear code would fit a table of 8192 entries. */
  predicate Fits(st: State, cs: nat) {
    Pow2(cs) + 2 + st.added <= MAX_CODES
  }

  /** There is never a longer stretch of codes without a clear code. */
  ghost predicate Within(data: seq<byte>, cs: nat, pos: nat, st: State)
    requires Good(st, cs)
    decreases if pos < 8 * |data| then 8 * |data| - pos else 0
  {
    pos + st.size <= 8 * |data| ==>
      var m := Step(st, cs, BitStream.LE(data, pos, st.size));
      m.Go? ==> Fits(m.st, cs) && Within(data, cs, pos + st.size, m.st)
  }

  /** The image data at `p`: the minimum code size, then sub-blocks of codes. */
  ghost function Image(input: seq<byte>, p: nat): Result {
    var cs := ByteAt(input, p);
    FreshGood(cs);
    Run(Deblock(input, p + 1), cs, 0, Unstarted(cs))
  }

  ghost predicate ImageWithin(input: seq<byte>, p: nat) {
    var cs := ByteAt(input, p);
    FreshGood(cs);
    Within(Deblock(input, p + 1), cs, 0, Unstarted(cs))
  }

  // ----- the code table -----

  datatype Entry = Entry(prefix: int, first: byte, suffix: byte)

  /** The prefix of every entry is an earlier entry. */
  ghost predicate Linked(codes: seq<Entry>, clear: nat, n: nat) {
    && n <= |codes|
    && forall k :: Usable(k, clear, n) ==>
      if k < clear then codes[k].prefix == -1 else Usable(codes[k].prefix, clear, k)
  }

  /** The string an entry stands for. */
  ghost function Str(codes: seq<Entry>, clear: nat, n: nat, k: nat): (s: seq<byte>)
    requires Linked(codes, clear, n) && Usable(k, clear, n)
    ensures s != []
    decreases k
  {
    (if codes[k].prefix < 0 then [] else Str(codes, clear, n, codes[k].prefix)) + [codes[k].suffix]
  }

  /** Strings depend only on earlier entries. */
  lemma {:induction false} StrSame(a: seq<Entry>, b: seq<Entry>, clear: nat, n: nat, m: nat, k: nat)
    requires Linked(a, clear, n) && Linked(b, clear, m) && Usable(k, clear, n) && Usable(k, clear, m)
    requires forall i :: 0 <= i <= k ==> a[i] == b[i]
    ensures Str(a, clear, n, k) == Str(b, clear, m, k)
    decreases k
  {
    if a[k].prefix >= 0 {
      StrSame(a, b, clear, n, m, a[k].prefix);
    }
  }

  /** The table spells the dictionary, and knows the first byte of every string. */
  ghost predicate Spells(codes: seq<Entry>, clear: nat, n: nat, dict: seq<seq<byte>>)
    requires Linked(codes, clear, n)
  {
    && |dict| <= n
    && forall k :: Usable(k, clear, |dict|) ==> Str(codes, clear, n, k) == dict[k] && codes[k].first == dict[k][0]
  }

  ghost predicate RootsSet(codes: seq<Entry>, clear: nat) {
    clear <= |codes| && forall k :: 0 <= k < clear ==> codes[k] == Entry(-1, k % 256, k % 256)
  }

  lemma RootsSpell(codes: seq<Entry>, clear: nat)
    requires RootsSet(codes, clear) && clear + 2 <= |codes|
    ensures Linked(codes, clear, clear + 2) && Spells(codes, clear, clear + 2, Roots(clear))
  {
  }

  /** An added entry keeps the links, and every string spelt before. */
  lemma AddEntry(codes: seq<Entry>, clear: nat, n: nat, e: Entry)
    requires Linked(codes, clear, n) && clear + 2 <= n < |codes| && Usable(e.prefix, clear, n)
    ensures Linked(codes[n := e], clear, n + 1)
    ensures forall k :: Usable(k, clear, n) ==> Str(codes[n := e], clear, n + 1, k) == Str(codes, clear, n, k)
    ensures Str(codes[n := e], clear, n + 1, n) == Str(codes, clear, n, e.prefix) + [e.suffix]
  {
    var b := codes[n := e];
    forall k | Usable(k, clear, n) ensures Str(b, clear, n + 1, k) == Str(codes, clear, n, k) {
      StrSame(codes, b, clear, n, n + 1, k);
    }
  }

  /** The entry for a code: the previous code's string, and the first byte of this one's, which for
      a code about to enter the table is the first byte of the previous. */
  function NewEntry(codes: seq<Entry>, prev: nat, c: nat, n: nat): Entry
    requires prev < |codes| && c < |codes|
  {
    Entry(prev, codes[prev].first, if c < n then codes[c].first else codes[prev].first)
  }

  /** The table with its new entry spells what the reference has learnt, and the code's string. */
  lemma LearnSpells(codes: seq<Entry>, cs: nat, n: nat, st: State, c: nat)
    requires |codes| == MAX_CODES && Pow2(cs) + 2 <= n < MAX_CODES && c <= n && (c == n ==> n < DICT_LIMIT)
    requires c != Pow2(cs) && c != Pow2(cs) + 1
    requires Good(st, cs) && Usable(st.prev, Pow2(cs), |st.dict|)
    requires |st.dict| == (if n < DICT_LIMIT then n else DICT_LIMIT) && c <= |st.dict|
    requires Linked(codes, Pow2(cs), n) && Spells(codes, Pow2(cs), n, st.dict)
    requires c < n ==> c < |st.dict|
    ensures var b := codes[n := NewEntry(codes, st.prev, c, n)];
      && Linked(b, Pow2(cs), n + 1) && Spells(b, Pow2(cs), n + 1, Learn(st, c).dict)
      && Str(b, Pow2(cs), n + 1, c) == Spell(st, c)
  {
    hide Pow2, Str, Linked;
    var e := NewEntry(codes, st.prev, c, n);
    AddEntry(codes, Pow2(cs), n, e);
    assert Str(codes, Pow2(cs), n, st.prev) == st.dict[st.prev];
    assert c == n || Usable(c, Pow2(cs), |st.dict|);
  }
}
