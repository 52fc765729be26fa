/** GIF allows a full dictionary to be used without a clear code for as long as the encoder likes;
    stb_image gives up on the code after its table of 8192 entries is full. */
module GifDeferred {
  import opened Bits
  import opened BitStream
  import opened GifLzw

  /** A clear code, and then code 0 until the data ends, with minimum code size 2. */
  function Zeros(n: nat): seq<byte> {
    [4] + seq<byte>(n, _ => 0)
  }

  lemma {:induction false} ZeroBits(n: nat, pos: nat, k: nat)
    requires pos >= 3
    ensures LE(Zeros(n), pos, k) == 0
    decreases k
  {
    if k > 0 {
      BitsOfFour();
      BitAtZero(pos % 8);
      ZeroBits(n, pos + 1, k - 1);
    }
  }

  lemma BitsOfFour()
    ensures BitAt(4, 0) == 0 && BitAt(4, 1) == 0 && BitAt(4, 2) == 1
    ensures forall i :: 3 <= i < 8 ==> BitAt(4, i) == 0
  {
    assert BitAt(4, 2) == BitAt(2, 1) == BitAt(1, 0);
    forall i | 3 <= i < 8 ensures BitAt(4, i) == 0 {
      BitAtZero(i - 3);
      assert BitAt(4, i) == BitAt(2, i - 1) == BitAt(1, i - 2) == BitAt(0, i - 3);
    }
  }

  /** The state while code 0 repeats. */
  ghost predicate Repeating(st: State) {
    Good(st, 2) && st.started && st.prev == 0 && st.size <= MAX_SIZE
  }

  lemma RepeatStep(st: State)
    requires Repeating(st)
    ensures var m := Step(st, 2, 0); m.Go? && Repeating(m.st) && m.st.added == st.added + 1
  {
    Pow2Values();
  }

  lemma {:induction false} RepeatIsDone(n: nat, pos: nat, st: State)
    requires pos >= 3 && Repeating(st)
    ensures Run(Zeros(n), 2, pos, st).Done?
    decreases 8 * |Zeros(n)| - pos
  {
    hide Step, Zeros, LE;
    if pos + st.size <= 8 * |Zeros(n)| {
      ZeroBits(n, pos, st.size);
      RepeatStep(st);
      RepeatIsDone(n, pos + st.size, Step(st, 2, 0).st);
    }
  }

  /** Twelve bits for every code that the table still has room for, and for one more. */
  lemma {:induction false} RepeatOverflows(n: nat, pos: nat, st: State)
    requires pos >= 3 && Repeating(st) && Fits(st, 2)
    requires pos + MAX_SIZE * (MAX_CODES - 5 - st.added) <= 8 * |Zeros(n)|
    ensures !Within(Zeros(n), 2, pos, st)
    decreases 8 * |Zeros(n)| - pos
  {
    hide Step, Zeros, LE;
    ZeroBits(n, pos, st.size);
    RepeatStep(st);
    Pow2Values();
    var next := Step(st, 2, 0).st;
    if Fits(next, 2) {
      RepeatOverflows(n, pos + st.size, next);
    }
  }

  /** The clear code and the first pixel. */
  ghost function Begun(): State {
    Fresh(2).(prev := 0)
  }

  lemma Beginning(n: nat)
    ensures Good(Unstarted(2), 2) && Good(Fresh(2), 2) && Repeating(Begun()) && Begun().added == 0 && Begun().size == 3
    ensures LE(Zeros(n), 0, 3) == 4 && Step(Unstarted(2), 2, 4) == Go([], Fresh(2))
    ensures LE(Zeros(n), 3, 3) == 0 && Step(Fresh(2), 2, 0) == Go([0], Begun())
  {
    hide LE;
    FreshGood(2);
    Pow2Values();
    ZeroBits(n, 3, 3);
    FirstCode(n);
  }

  lemma FirstCode(n: nat)
    ensures LE(Zeros(n), 0, 3) == 4
  {
    BitsOfFour();
    var z := Zeros(n);
    assert StreamBit(z, 0) == 0 && StreamBit(z, 1) == 0 && StreamBit(z, 2) == 1;
    assert LE(z, 2, 1) == 1;
    assert LE(z, 1, 2) == 2;
  }

  const ENOUGH: nat := 12281

  lemma StreamDefers(n: nat)
    requires Good(Unstarted(2), 2)
    ensures Run(Zeros(n), 2, 0, Unstarted(2)).Done?
    ensures n >= ENOUGH ==> !Within(Zeros(n), 2, 0, Unstarted(2))
  {
    hide Step, LE;
    Beginning(n);
    RepeatIsDone(n, 6, Begun());
    assert Run(Zeros(n), 2, 3, Fresh(2)).Done?;
    if n >= ENOUGH {
      Pow2Values();
      RepeatOverflows(n, 6, Begun());
      assert !Within(Zeros(n), 2, 3, Fresh(2));
    }
  }

  /** Data as sub-blocks of one byte each. */
  function Blocks(data: seq<byte>): seq<byte> {
    if data == [] then [0] else [1, data[0]] + Blocks(data[1..])
  }

  lemma {:induction false} DeblockBlocks(before: seq<byte>, data: seq<byte>)
    ensures Deblock(before + Blocks(data), |before|) == data
    decreases |data|
  {
    var input := before + Blocks(data);
    if data != [] {
      var more := before + [1, data[0]];
      assert input == more + Blocks(data[1..]);
      DeblockBlocks(more, data[1..]);
      assert input[|before|] == 1 && input[|before| + 1] == data[0];
      var block := BytesAt(input, |before| + 1, 1);
      assert block[0] == ByteAt(input, |before| + 1 + 0);
      assert block == [data[0]];
    }
  }

  /** An image that the format allows, of any length: the reference decodes it, and when it is long
      enough the code after some clear code no longer fits the table. */
  lemma DeferredClear(n: nat)
    ensures var image := [2] + Blocks(Zeros(n));
      Image(image, 0).Done? && (n >= ENOUGH ==> !ImageWithin(image, 0))
  {
    hide Run, Within, Deblock, Blocks;
    DeblockBlocks([2], Zeros(n));
    FreshGood(2);
    StreamDefers(n);
  }
}
