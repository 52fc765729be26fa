/** A GIF image encoder, written out from Appendix F of the GIF89a specification: LZW with codes that grow,
    clear codes wherever the encoder likes, and sub-blocks.  Whatever it encodes, the decoder draws. */
module GifEncode {
  import opened Bits
  import opened BitStream
  import opened BitWriter
  import opened GifLzw
  import GifCanvas
  import GifDecode

  // ----- the encoder -----

  /** A string of one pixel has its value for a code; the others are numbered from two past the clear code
      on, in the order in which they were entered. */
  predicate Known(words: seq<seq<byte>>, x: seq<byte>) {
    |x| == 1 || x in words
  }

  function Index(words: seq<seq<byte>>, x: seq<byte>): (k: nat)
    requires x in words
    ensures k < |words| && words[k] == x && x !in words[..k]
  {
    if words[0] == x then 0
    else
      assert x in words[1..];
      var k := Index(words[1..], x);
      assert words[..k + 1] == [words[0]] + words[1..][..k];
      k + 1
  }

  function CodeOf(cs: nat, words: seq<seq<byte>>, x: seq<byte>): nat
    requires Known(words, x)
  {
    if |x| == 1 then x[0] else Pow2(cs) + 2 + Index(words, x)
  }

  /** A string is entered while there are fewer than 4096 codes. */
  function Entered(cs: nat, words: seq<seq<byte>>, x: seq<byte>): seq<seq<byte>> {
    if Pow2(cs) + 2 + |words| < 4096 then words + [x] else words
  }

  /** The bits of a code when the decoder knows `n` codes: one more than the minimum, and enough for the next
      code to be entered, but never more than twelve. */
  function Width(size: nat, n: nat): (s: nat)
    requires size <= 12
    ensures size <= s <= 12 && (s == 12 || n < Pow2(s)) && (s > size ==> n >= Pow2(s - 1))
    decreases 12 - size
  {
    if size == 12 || n < Pow2(size) then size else Width(size + 1, n)
  }

  /** What is left to encode: the strings entered so far, the current string, the pixels after it, and how
      many codes the decoder knows. */
  function Codes(cs: nat, words: seq<seq<byte>>, x: seq<byte>, rest: seq<byte>, n: nat): (s: bits)
    requires cs <= 11 && x != [] && Known(words, x)
    decreases |rest|
  {
    var code := Field(CodeOf(cs, words, x), Width(cs + 1, n));
    if rest == [] then code
    else
      var y := x + [rest[0]];
      if Known(words, y) then Codes(cs, words, y, rest[1..], n)
      else code + Codes(cs, Entered(cs, words, y), [rest[0]], rest[1..], Pow2(cs) + 2 + |words|)
  }

  // ----- the decoder keeps up -----

  ghost predicate AllBelow(x: seq<byte>, limit: nat) {
    forall k :: 0 <= k < |x| ==> x[k] < limit
  }

  /** The decoder is one string behind: it knows those entered before `last`, the last string sent, and
      nothing has been sent if `first`. */
  ghost predicate Synced(st: State, cs: nat, before: seq<seq<byte>>, last: seq<byte>, words: seq<seq<byte>>, x: seq<byte>, first: bool) {
    && 2 <= cs <= 11 && Good(st, cs) && st.started && st.dict == Roots(Pow2(cs)) + before && |st.dict| <= 4096
    && st.size == Width(cs + 1, |st.dict|) && x != [] && Known(words, x)
    && (first ==> before == words == [] && st.prev == -1)
    && (!first ==> last != [] && Known(before, last) && AllBelow(last, Pow2(cs)))
    && (!first ==> st.prev == CodeOf(cs, before, last) && words == Entered(cs, before, last + [x[0]]))
  }

  /** The string of a code. */
  lemma Spelled(cs: nat, words: seq<seq<byte>>, x: seq<byte>)
    requires Known(words, x) && AllBelow(x, Pow2(cs))
    ensures var c, dict := CodeOf(cs, words, x), Roots(Pow2(cs)) + words;
      c < |dict| && dict[c] == x && Usable(c, Pow2(cs), |dict|)
  {
    hide Pow2;
    if |x| == 1 {
      assert x == [x[0]];
    } else {
      var k, n := Index(words, x), |Roots(Pow2(cs))|;
      assert (Roots(Pow2(cs)) + words)[n + k] == words[k];
    }
  }

  /** The next string is the one entered last, and begins with the string before it, or it is known. */
  lemma KnownOrLast(cs: nat, before: seq<seq<byte>>, last: seq<byte>, words: seq<seq<byte>>, x: seq<byte>)
    requires last != [] && x != [] && Known(words, x) && words == Entered(cs, before, last + [x[0]])
    ensures var c := CodeOf(cs, words, x); var n := Pow2(cs) + 2 + |before|;
      if c < n then Known(before, x) && (|x| == 1 || before[c - (Pow2(cs) + 2)] == x)
      else |x| == 1 || (c == n < 4096 && x == last + [last[0]] && x[0] == last[0])
  {
    hide Pow2;
    if |x| != 1 {
      var k := Index(words, x);
      if k < |before| {
        assert words[k] == before[k];
      } else {
        assert words[k] == last + [x[0]];
        assert (last + [x[0]])[0] == last[0];
      }
    }
  }

  lemma SpellsNext(st: State, cs: nat, before: seq<seq<byte>>, last: seq<byte>, words: seq<seq<byte>>, x: seq<byte>)
    requires Synced(st, cs, before, last, words, x, false) && AllBelow(x, Pow2(cs))
    ensures var c := CodeOf(cs, words, x);
      && 0 <= st.prev < |st.dict| && st.dict[st.prev] == last && c <= |st.dict| && (c == |st.dict| ==> c < 4096)
      && c != Pow2(cs) && c != Pow2(cs) + 1 && Spell(st, c) == x
  {
    hide Pow2, Good;
    var c := CodeOf(cs, words, x);
    Spelled(cs, before, last);
    KnownOrLast(cs, before, last, words, x);
    if |x| == 1 {
      assert Known(before, x);
      Spelled(cs, before, x);
    } else if c < |st.dict| {
      assert st.dict[c] == before[c - (Pow2(cs) + 2)];
    }
  }

  /** Only one width has what is asked of it. */
  lemma {:induction false} WidthIs(size: nat, n: nat, s: nat)
    requires size <= s <= 12 && (s == 12 || n < Pow2(s)) && (s > size ==> n >= Pow2(s - 1))
    ensures Width(size, n) == s
    decreases s - size
  {
    hide Pow2;
    if size < s {
      Pow2Mono(size, s - 1);
      WidthIs(size + 1, n, s);
    }
  }

  lemma WidthGrows(size: nat, n: nat)
    requires size <= 12
    ensures var s := Width(size, n); Width(size, n + 1) == if n + 1 == Pow2(s) && s < 12 then s + 1 else s
  {
    hide Width, Pow2;
    var s := Width(size, n);
    var t := if n + 1 == Pow2(s) && s < 12 then s + 1 else s;
    PowerStep(s);
    WidthIs(size, n + 1, t);
  }

  lemma PowerStep(s: nat)
    ensures Pow2(s + 1) == 2 * Pow2(s)
  {
  }

  /** One code: its string is drawn, and the decoder learns what the encoder has entered. */
  lemma CodeRead(st: State, cs: nat, before: seq<seq<byte>>, last: seq<byte>, words: seq<seq<byte>>, x: seq<byte>, first: bool)
    returns (next: State)
    requires Synced(st, cs, before, last, words, x, first) && AllBelow(x, Pow2(cs)) && |words| + Pow2(cs) + 2 <= 4096
    ensures Step(st, cs, CodeOf(cs, words, x)) == Go(x, next)
    ensures Good(next, cs) && next.started && next.dict == Roots(Pow2(cs)) + words && next.prev == CodeOf(cs, words, x)
    ensures next.size == Width(cs + 1, |next.dict|) && next.added <= st.added + 1
  {
    hide Pow2, Width, Good, Roots;
    if first {
      next := st.(prev := x[0]);
      assert x == [x[0]];
      FirstCode(st, cs, x[0]);
    } else {
      next := LearnOne(st, cs, before, last, words, x);
    }
  }

  lemma LearnOne(st: State, cs: nat, before: seq<seq<byte>>, last: seq<byte>, words: seq<seq<byte>>, x: seq<byte>) returns (next: State)
    requires Synced(st, cs, before, last, words, x, false) && AllBelow(x, Pow2(cs)) && |words| + Pow2(cs) + 2 <= 4096
    ensures Step(st, cs, CodeOf(cs, words, x)) == Go(x, next)
    ensures Good(next, cs) && next.started && next.dict == Roots(Pow2(cs)) + words && next.prev == CodeOf(cs, words, x)
    ensures next.size == Width(cs + 1, |next.dict|) && next.added <= st.added + 1
  {
    hide Pow2, Width, Good, Roots, CodeOf, Step, Spell;
    var c := CodeOf(cs, words, x);
    SpellsNext(st, cs, before, last, words, x);
    next := Learn(st, c);
    LaterCode(st, cs, c, x);
    WidthGrows(cs + 1, |st.dict|);
    Learnt(cs, before, last, words, x);
  }

  lemma FirstCode(st: State, cs: nat, c: byte)
    requires Good(st, cs) && st.started && st.prev == -1 && c < Pow2(cs)
    ensures Step(st, cs, c) == Go([c], st.(prev := c)) && Good(st.(prev := c), cs)
  {
    hide Pow2;
    var m := Step(st, cs, c);
  }

  lemma LaterCode(st: State, cs: nat, c: nat, x: seq<byte>)
    requires Good(st, cs) && st.started && 0 <= st.prev < |st.dict| && st.dict[st.prev] != [] && x != []
    requires c <= |st.dict| && (c == |st.dict| ==> c < 4096) && c != Pow2(cs) && c != Pow2(cs) + 1 && Spell(st, c) == x
    ensures Step(st, cs, c) == Go(x, Learn(st, c)) && Good(Learn(st, c), cs)
  {
    hide Pow2;
    var m := Step(st, cs, c);
  }

  lemma Learnt(cs: nat, before: seq<seq<byte>>, last: seq<byte>, words: seq<seq<byte>>, x: seq<byte>)
    requires x != [] && words == Entered(cs, before, last + [x[0]])
    ensures var dict := Roots(Pow2(cs)) + before;
      (if |dict| < 4096 then dict + [last + [x[0]]] else dict) == Roots(Pow2(cs)) + words
  {
    hide Pow2;
  }

  // ----- runs of codes -----

  /** The strings entered before the last code is sent. */
  function LastWords(cs: nat, words: seq<seq<byte>>, x: seq<byte>, rest: seq<byte>): seq<seq<byte>>
    requires x != [] && Known(words, x)
    decreases |rest|
  {
    if rest == [] then words
    else
      var y := x + [rest[0]];
      if Known(words, y) then LastWords(cs, words, y, rest[1..]) else LastWords(cs, Entered(cs, words, y), [rest[0]], rest[1..])
  }

  lemma RunOne(data: seq<byte>, cs: nat, pos: nat, st: State, c: nat, out: seq<byte>, next: State)
    requires Good(st, cs) && Good(next, cs) && Step(st, cs, c) == Go(out, next) && c < Pow2(st.size)
    requires Holds(data, pos, Field(c, st.size)) && pos + st.size <= 8 * |data|
    ensures Run(data, cs, pos, st) == Emit(out, Run(data, cs, pos + st.size, next))
    ensures Fits(next, cs) && Within(data, cs, pos + st.size, next) ==> Within(data, cs, pos, st)
  {
    hide Holds, Good, Step, LE;
    FieldRead(data, pos, c, st.size);
  }

  lemma EmitTwice(a: seq<byte>, b: seq<byte>, r: Result)
    ensures Emit(a, Emit(b, r)) == Emit(a + b, r)
  {
    if r.Done? { assert a + (b + r.pixels) == a + b + r.pixels; }
  }

  /** A code fits in the bits it is sent with. */
  lemma CodeFits(st: State, cs: nat, before: seq<seq<byte>>, last: seq<byte>, words: seq<seq<byte>>, x: seq<byte>, first: bool)
    requires Synced(st, cs, before, last, words, x, first) && AllBelow(x, Pow2(cs))
    ensures CodeOf(cs, words, x) < Pow2(st.size)
  {
    hide Pow2, Good, Roots, Width;
    Pow2Values();
    if first {
      Pow2Mono(cs, st.size);
    } else {
      SpellsNext(st, cs, before, last, words, x);
    }
  }

  /** Sending a code and going on with the next pixel. */
  lemma SentOne(st: State, cs: nat, before: seq<seq<byte>>, last: seq<byte>, words: seq<seq<byte>>, x: seq<byte>, first: bool,
                data: seq<byte>, pos: nat) returns (next: State)
    requires Synced(st, cs, before, last, words, x, first) && AllBelow(x, Pow2(cs)) && |words| + Pow2(cs) + 2 <= 4096
    requires Holds(data, pos, Field(CodeOf(cs, words, x), st.size)) && pos + st.size <= 8 * |data| && st.added + Pow2(cs) + 3 <= 8192
    ensures Good(next, cs) && next.started && next.dict == Roots(Pow2(cs)) + words && next.prev == CodeOf(cs, words, x)
    ensures next.size == Width(cs + 1, |next.dict|) && next.added <= st.added + 1
    ensures Run(data, cs, pos, st) == Emit(x, Run(data, cs, pos + st.size, next))
    ensures Within(data, cs, pos + st.size, next) ==> Within(data, cs, pos, st)
  {
    hide Pow2, Width, Good, Run, Within, Holds, Step, Roots, CodeOf;
    next := CodeRead(st, cs, before, last, words, x, first);
    CodeFits(st, cs, before, last, words, x, first);
    RunOne(data, cs, pos, st, CodeOf(cs, words, x), x, next);
  }

  lemma SyncedMore(st: State, cs: nat, before: seq<seq<byte>>, last: seq<byte>, words: seq<seq<byte>>, x: seq<byte>, first: bool, p: byte)
    requires Synced(st, cs, before, last, words, x, first) && Known(words, x + [p])
    ensures Synced(st, cs, before, last, words, x + [p], first)
  {
    hide Pow2, Width, Good, Roots, CodeOf;
  }

  lemma SyncedNext(st: State, cs: nat, words: seq<seq<byte>>, x: seq<byte>, p: byte)
    requires 2 <= cs <= 11 && Good(st, cs) && st.started && x != [] && Known(words, x) && AllBelow(x, Pow2(cs))
    requires st.dict == Roots(Pow2(cs)) + words && st.prev == CodeOf(cs, words, x) && st.size == Width(cs + 1, |st.dict|)
    requires |words| + Pow2(cs) + 2 <= 4096
    ensures Synced(st, cs, words, x, Entered(cs, words, x + [p]), [p], false)
  {
    hide Pow2, Width, Good, Roots, CodeOf;
  }

  /** All codes of a stretch without clear codes. */
  lemma {:induction false} CodesRun(st: State, cs: nat, before: seq<seq<byte>>, last: seq<byte>, words: seq<seq<byte>>, x: seq<byte>,
                                    first: bool, rest: seq<byte>, data: seq<byte>, pos: nat) returns (next: State)
    requires Synced(st, cs, before, last, words, x, first) && AllBelow(x, Pow2(cs)) && AllBelow(rest, Pow2(cs))
    requires |words| + Pow2(cs) + 2 <= 4096 && st.added + |rest| + Pow2(cs) + 3 <= 8192
    requires Holds(data, pos, Codes(cs, words, x, rest, |st.dict|)) && pos + |Codes(cs, words, x, rest, |st.dict|)| <= 8 * |data|
    ensures Good(next, cs) && next.started && next.size == Width(cs + 1, Pow2(cs) + 2 + |LastWords(cs, words, x, rest)|)
    ensures var end := pos + |Codes(cs, words, x, rest, |st.dict|)|;
      && Run(data, cs, pos, st) == Emit(x + rest, Run(data, cs, end, next))
      && (Within(data, cs, end, next) ==> Within(data, cs, pos, st))
    decreases |rest|
  {
    hide Pow2, Width, Good, Run, Within, Holds, Roots, CodeOf, Synced, Entered, Codes, LastWords;
    SyncedIs(st, cs, before, last, words, x, first);
    CodesAre(cs, words, x, rest, |st.dict|);
    if rest == [] {
      next := SentOne(st, cs, before, last, words, x, first, data, pos);
      assert x + rest == x;
    } else {
      var p := rest[0];
      if Known(words, x + [p]) {
        SyncedMore(st, cs, before, last, words, x, first, p);
        next := CodesRun(st, cs, before, last, words, x + [p], first, rest[1..], data, pos);
        assert x + [p] + rest[1..] == x + rest;
      } else {
        var more, n := Entered(cs, words, x + [p]), Pow2(cs) + 2 + |words|;
        var tail := Codes(cs, more, [p], rest[1..], n);
        HoldsParts(data, pos, Field(CodeOf(cs, words, x), st.size), tail);
        var st1 := SentOne(st, cs, before, last, words, x, first, data, pos);
        EnteredFits(cs, words, x + [p]);
        SyncedNext(st1, cs, words, x, p);
        next := CodesRun(st1, cs, words, x, more, [p], false, rest[1..], data, pos + st.size);
        assert [p] + rest[1..] == rest;
        EmitTwice(x, rest, Run(data, cs, pos + st.size + |tail|, next));
      }
    }
  }

  lemma CodesAre(cs: nat, words: seq<seq<byte>>, x: seq<byte>, rest: seq<byte>, n: nat)
    requires cs <= 11 && x != [] && Known(words, x)
    ensures var code := Field(CodeOf(cs, words, x), Width(cs + 1, n));
      if rest == [] then Codes(cs, words, x, rest, n) == code && LastWords(cs, words, x, rest) == words
      else if Known(words, x + [rest[0]]) then
        && Codes(cs, words, x, rest, n) == Codes(cs, words, x + [rest[0]], rest[1..], n)
        && LastWords(cs, words, x, rest) == LastWords(cs, words, x + [rest[0]], rest[1..])
      else
        var more := Entered(cs, words, x + [rest[0]]);
        && Codes(cs, words, x, rest, n) == code + Codes(cs, more, [rest[0]], rest[1..], Pow2(cs) + 2 + |words|)
        && LastWords(cs, words, x, rest) == LastWords(cs, more, [rest[0]], rest[1..])
  {
    hide Pow2, Width, CodeOf, Field, Entered;
  }

  lemma SyncedIs(st: State, cs: nat, before: seq<seq<byte>>, last: seq<byte>, words: seq<seq<byte>>, x: seq<byte>, first: bool)
    requires Synced(st, cs, before, last, words, x, first)
    ensures 2 <= cs <= 11 && Good(st, cs) && x != [] && Known(words, x) && st.size == Width(cs + 1, |st.dict|)
  {
  }

  lemma EnteredFits(cs: nat, words: seq<seq<byte>>, y: seq<byte>)
    requires |words| + Pow2(cs) + 2 <= 4096
    ensures |Entered(cs, words, y)| + Pow2(cs) + 2 <= 4096
  {
  }

  // ----- whole images -----

  /** A clear code and the pixels after it; `size` is how long codes are before it. */
  function SegmentBits(cs: nat, pixels: seq<byte>, size: nat): bits
    requires cs <= 11 && pixels != []
  {
    Field(Pow2(cs), size) + Codes(cs, [], [pixels[0]], pixels[1..], Pow2(cs) + 2)
  }

  /** How long codes are after them. */
  function EndSize(cs: nat, pixels: seq<byte>): nat
    requires cs <= 11 && pixels != []
  {
    Width(cs + 1, Pow2(cs) + 2 + |LastWords(cs, [], [pixels[0]], pixels[1..])|)
  }

  /** The pixels of an image, divided by clear codes in any way; the decoder gives up on stretches for which
      a table of 8192 codes is too small. */
  ghost predicate CanEncode(cs: nat, parts: seq<seq<byte>>) {
    forall i :: 0 <= i < |parts| ==> parts[i] != [] && AllBelow(parts[i], Pow2(cs)) && |parts[i]| + Pow2(cs) + 2 <= 8192
  }

  /** The end code follows the last part. */
  function StreamBits(cs: nat, parts: seq<seq<byte>>, size: nat): bits
    requires cs <= 11 && CanEncode(cs, parts)
  {
    if parts == [] then Field(Pow2(cs) + 1, size)
    else SegmentBits(cs, parts[0], size) + StreamBits(cs, parts[1..], EndSize(cs, parts[0]))
  }

  function Joined(parts: seq<seq<byte>>): seq<byte> {
    if parts == [] then [] else parts[0] + Joined(parts[1..])
  }

  lemma ClearRead(st: State, cs: nat, data: seq<byte>, pos: nat)
    requires cs <= 11 && Good(st, cs) && Holds(data, pos, Field(Pow2(cs), st.size)) && pos + st.size <= 8 * |data|
    ensures Good(Fresh(cs), cs)
    ensures Run(data, cs, pos, st) == Run(data, cs, pos + st.size, Fresh(cs))
    ensures Within(data, cs, pos + st.size, Fresh(cs)) ==> Within(data, cs, pos, st)
  {
    hide Holds, Run, Within, Pow2;
    FreshGood(cs);
    PowerBelow(st, cs);
    RunOne(data, cs, pos, st, Pow2(cs), [], Fresh(cs));
    var r := Run(data, cs, pos + st.size, Fresh(cs));
    if r.Done? { assert [] + r.pixels == r.pixels; }
    Pow2Mono(cs, 11);
    Pow2Values();
    PowerStep(10);
    PowerStep(9);
  }

  lemma PowerBelow(st: State, cs: nat)
    requires Good(st, cs)
    ensures Pow2(cs) < Pow2(st.size)
  {
    Pow2Mono(cs + 1, st.size);
  }

  lemma EndRead(st: State, cs: nat, data: seq<byte>, pos: nat)
    requires 1 <= cs && Good(st, cs) && Holds(data, pos, Field(Pow2(cs) + 1, st.size)) && pos + st.size <= 8 * |data|
    ensures Run(data, cs, pos, st) == Done([]) && Within(data, cs, pos, st)
  {
    hide Holds, Pow2, LE;
    Pow2Mono(cs + 1, st.size);
    PowerStep(cs);
    Pow2Mono(1, cs);
    Pow2Values();
    FieldRead(data, pos, Pow2(cs) + 1, st.size);
  }

  lemma FreshSynced(cs: nat, p: byte)
    requires 2 <= cs <= 11
    ensures Synced(Fresh(cs), cs, [], [], [], [p], true) && Pow2(cs) + 2 < 4096
  {
    hide Pow2;
    FreshGood(cs);
    GifDecode.RoomAfterClear(cs);
    WidthIs(cs + 1, Pow2(cs) + 2, cs + 1);
    assert Roots(Pow2(cs)) + [] == Roots(Pow2(cs));
  }

  /** One part and its clear code. */
  lemma SegmentRuns(cs: nat, ps: seq<byte>, st: State, data: seq<byte>, pos: nat) returns (next: State)
    requires 2 <= cs <= 11 && ps != [] && AllBelow(ps, Pow2(cs)) && |ps| + Pow2(cs) + 2 <= 8192 && Good(st, cs)
    requires Holds(data, pos, SegmentBits(cs, ps, st.size)) && pos + |SegmentBits(cs, ps, st.size)| <= 8 * |data|
    ensures Good(next, cs) && next.size == EndSize(cs, ps)
    ensures var end := pos + |SegmentBits(cs, ps, st.size)|;
      Run(data, cs, pos, st) == Emit(ps, Run(data, cs, end, next)) && (Within(data, cs, end, next) ==> Within(data, cs, pos, st))
  {
    hide Pow2, Width, Good, Run, Within, Holds, Codes, LastWords, Synced;
    var codes := Codes(cs, [], [ps[0]], ps[1..], Pow2(cs) + 2);
    HoldsParts(data, pos, Field(Pow2(cs), st.size), codes);
    ClearRead(st, cs, data, pos);
    FreshSynced(cs, ps[0]);
    next := CodesRun(Fresh(cs), cs, [], [], [], [ps[0]], true, ps[1..], data, pos + st.size);
    assert [ps[0]] + ps[1..] == ps;
  }

  /** The reference decodes every encoded image. */
  lemma {:induction false} StreamRuns(cs: nat, parts: seq<seq<byte>>, st: State, data: seq<byte>, pos: nat)
    requires 2 <= cs <= 11 && CanEncode(cs, parts) && Good(st, cs) && Holds(data, pos, StreamBits(cs, parts, st.size))
    requires pos + |StreamBits(cs, parts, st.size)| <= 8 * |data|
    ensures Run(data, cs, pos, st) == Done(Joined(parts)) && Within(data, cs, pos, st)
    decreases |parts|
  {
    hide Pow2, Good, Run, Within, Holds, SegmentBits, EndSize, AllBelow;
    if parts == [] {
      EndRead(st, cs, data, pos);
    } else {
      var segment, tail := SegmentBits(cs, parts[0], st.size), StreamBits(cs, parts[1..], EndSize(cs, parts[0]));
      HoldsParts(data, pos, segment, tail);
      var next := SegmentRuns(cs, parts[0], st, data, pos);
      StreamRuns(cs, parts[1..], next, data, pos + |segment|);
    }
  }

  // ----- sub-blocks -----

  function Part(data: seq<byte>): (n: nat)
    ensures n <= 255 && n <= |data| && (data != [] ==> n > 0)
  {
    if |data| < 255 then |data| else 255
  }

  /** Sub-blocks of at most 255 bytes, each after its length, and an empty one. */
  function Blocked(data: seq<byte>): seq<byte>
    decreases |data|
  {
    if data == [] then [0]
    else
      var n := Part(data);
      [n] + data[..n] + Blocked(data[n..])
  }

  lemma {:induction false} BlocksRead(input: seq<byte>, p: nat, data: seq<byte>, after: seq<byte>)
    requires p <= |input| && input[p..] == Blocked(data) + after
    ensures Deblock(input, p) == data
    decreases |data|
  {
    hide BytesAt, Part;
    if data == [] {
      assert input[p] == input[p..][0] == 0;
    } else {
      var n := Part(data);
      var tail := Blocked(data[n..]) + after;
      assert Blocked(data) + after == [n] + data[..n] + tail;
      OneBlock(input, p, data[..n], tail);
      BlocksRead(input, p + 1 + n, data[n..], after);
      assert data[..n] + data[n..] == data;
    }
  }

  lemma OneBlock(input: seq<byte>, p: nat, first: seq<byte>, tail: seq<byte>)
    requires p <= |input| && |first| <= 255 && input[p..] == [|first|] + first + tail
    ensures ByteAt(input, p) == |first| && BytesAt(input, p + 1, |first|) == first
    ensures p + 1 + |first| <= |input| && input[p + 1 + |first|..] == tail
  {
    var rest, n := input[p..], |first|;
    assert input[p] == rest[0] == n;
    forall k | 0 <= k < n ensures ByteAt(input, p + 1 + k) == first[k] {
      assert input[p + 1 + k] == rest[1 + k] == first[k];
    }
    assert input[p + 1 + n..] == rest[1 + n..] == tail;
  }

  // ----- the canvas -----

  /** Appendix E: how many rows of a frame of `h` are stored before row `r`. */
  function RowsBefore(r: nat, h: nat, interlaced: bool): nat {
    if !interlaced then r
    else if r % 8 == 0 then r / 8
    else if r % 8 == 4 then (h + 7) / 8 + r / 8
    else if r % 4 == 2 then (h + 3) / 4 + r / 4
    else (h + 1) / 2 + r / 2
  }

  /** The four bytes of the canvas at column `c`, row `r`: those of the pixel's entry in the colour table,
      the first and the third exchanged, if the entry is opaque; nothing if it is transparent; and the
      background where the image has no pixel. */
  function Shown(fr: GifCanvas.Frame, pal: seq<byte>, bg: byte, pixels: seq<byte>, c: nat, r: nat): seq<byte>
    requires |fr.table| == |pal| == 1024
  {
    var inside := fr.x <= c < fr.x + fr.w && fr.y <= r < fr.y + fr.h;
    var k := if inside then RowsBefore(r - fr.y, fr.h, fr.interlaced) * fr.w + (c - fr.x) else 0;
    if inside && k < |pixels| then
      var t, e := fr.table, 4 * (pixels[k] as int);
      if t[e + 3] > 128 then [t[e + 2], t[e + 1], t[e], t[e + 3]] else [0, 0, 0, 0]
    else if bg > 0 then [pal[4 * bg], pal[4 * bg + 1], pal[4 * bg + 2], 255]
    else [0, 0, 0, 0]
  }

  /** The four bytes at a place of a canvas `w` pixels wide. */
  function BytesOf(out: seq<byte>, w: nat, c: nat, r: nat): seq<byte> {
    var at := 4 * (r * w + c);
    if at + 4 <= |out| then [out[at], out[at + 1], out[at + 2], out[at + 3]] else []
  }

  ghost predicate Canvas(fr: GifCanvas.Frame, pal: seq<byte>, bg: byte, pixels: seq<byte>, out: seq<byte>)
    requires |fr.table| == |pal| == 1024
  {
    forall c, r :: 0 <= c < fr.cw && 0 <= r < fr.ch ==> BytesOf(out, fr.cw, c, r) == Shown(fr, pal, bg, pixels, c, r)
  }

  lemma ShownIs(fr: GifCanvas.Frame, pal: seq<byte>, bg: byte, pixels: seq<byte>, c: nat, r: nat)
    requires fr.Good() && |pal| == 1024
    ensures GifCanvas.FirstFrame(fr, pal, bg, pixels, c, r) == Shown(fr, pal, bg, pixels, c, r)
  {
    if fr.Covers(c, r) && fr.Index(c, r) < |pixels| {
      var v := pixels[fr.Index(c, r)];
      var colour, e := fr.Colour(v), 4 * (v as int);
      assert colour[0] == fr.table[e] && colour[1] == fr.table[e + 1] && colour[2] == fr.table[e + 2] && colour[3] == fr.table[e + 3];
    }
  }

  lemma CanvasHolds(fr: GifCanvas.Frame, pal: seq<byte>, bg: byte, pixels: seq<byte>, out: seq<byte>)
    requires fr.Good() && |pal| == 1024 && GifCanvas.ShowsFirst(fr, out, pal, bg, pixels) && |out| == 4 * (fr.cw * fr.ch)
    ensures Canvas(fr, pal, bg, pixels, out)
  {
    hide GifCanvas.FirstFrame, Shown;
    forall c, r | 0 <= c < fr.cw && 0 <= r < fr.ch ensures BytesOf(out, fr.cw, c, r) == Shown(fr, pal, bg, pixels, c, r) {
      ShownIs(fr, pal, bg, pixels, c, r);
      GifCanvas.NumberInside(fr, c, r);
      assert GifCanvas.Quad(out, fr.Number(c, r)) == GifCanvas.FirstFrame(fr, pal, bg, pixels, c, r);
      FourBytes(out, fr.Number(c, r));
    }
  }

  lemma FourBytes(out: seq<byte>, q: nat)
    requires 4 * q + 4 <= |out|
    ensures GifCanvas.Quad(out, q) == [out[4 * q], out[4 * q + 1], out[4 * q + 2], out[4 * q + 3]]
  {
  }

  lemma ImageRead(cs: nat, parts: seq<seq<byte>>, before: seq<byte>, after: seq<byte>)
    requires 2 <= cs <= 11 && CanEncode(cs, parts)
    ensures var input := before + [cs] + Blocked(Pack(StreamBits(cs, parts, cs + 1))) + after;
      ByteAt(input, |before|) == cs && Image(input, |before|) == Done(Joined(parts)) && ImageWithin(input, |before|)
  {
    hide CanEncode, StreamBits, Pack, Blocked, Run, Within, Deblock, Holds, Joined;
    var s := StreamBits(cs, parts, cs + 1);
    var data := Pack(s);
    var input, p := before + [cs] + Blocked(data) + after, |before|;
    assert input[p + 1..] == Blocked(data) + after;
    assert input[p] == cs;
    BlocksRead(input, p + 1, data, after);
    Found([], s, []);
    assert [] + data + [] == data;
    FreshGood(cs);
    StreamRuns(cs, parts, Unstarted(cs), data, 0);
  }

  /** Encoding pixels, with clear codes anywhere, and decoding them draws those pixels. */
  method RoundTrip(cs: nat, parts: seq<seq<byte>>, fr: GifCanvas.Frame, pal: array<byte>, bg: byte, before: seq<byte>, after: seq<byte>)
    returns (ok: bool, out: array<byte>)
    requires 2 <= cs <= 11 && CanEncode(cs, parts) && fr.Good() && pal.Length == 1024
    modifies pal
    ensures ok && out.Length == 4 * (fr.cw * fr.ch) && Canvas(fr, old(pal[..]), bg, Joined(parts), out[..])
  {
    hide CanEncode, StreamBits, Pack, Blocked, Image, ImageWithin, Joined, GifCanvas.ShowsFirst, Canvas;
    var input := before + [cs] + Blocked(Pack(StreamBits(cs, parts, cs + 1))) + after;
    ImageRead(cs, parts, before, after);
    ghost var was := pal[..];
    ok, out := GifDecode.DrawFrame(input, |before|, fr, pal, bg);
    CanvasHolds(fr, was, bg, Joined(parts), out[..]);
  }
}
