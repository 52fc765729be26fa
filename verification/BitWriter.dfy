/** Writing what `BitStream` reads: fields and code words as lists of bits, packed into bytes least
    significant bit first (section 3.1.1 of RFC 1951). */
module BitWriter {
  import opened Bits
  import opened BitStream

  type bits = seq<bool>

  function Bit(b: bool): nat {
    if b then 1 else 0
  }

  /** The low `n` bits of `v`, least significant first. */
  function Field(v: nat, n: nat): (s: bits)
    ensures |s| == n
    decreases n
  {
    if n == 0 then [] else [v % 2 == 1] + Field(v / 2, n - 1)
  }

  /** The same, most significant first. */
  function Word(v: nat, n: nat): (s: bits)
    ensures |s| == n
    decreases n
  {
    if n == 0 then [] else Word(v / 2, n - 1) + [v % 2 == 1]
  }

  /** The number that bits spell, the first one least significant. */
  function Value(s: bits): nat {
    if s == [] then 0 else Bit(s[0]) + 2 * Value(s[1..])
  }

  lemma {:induction false} ValueBound(s: bits)
    ensures Value(s) < Pow2(|s|)
    decreases |s|
  {
    if s != [] { ValueBound(s[1..]); }
  }

  lemma {:induction false} ValueBit(s: bits, i: nat)
    ensures BitAt(Value(s), i) == Bit(i < |s| && s[i])
    decreases |s|
  {
    if s == [] {
      BitAtZero(i);
    } else {
      var v := Value(s);
      assert v % 2 == Bit(s[0]) && v / 2 == Value(s[1..]);
      if i > 0 { ValueBit(s[1..], i - 1); }
    }
  }

  function ByteOf(s: bits): byte
    requires |s| <= 8
  {
    ValueBound(s);
    Pow2Mono(|s|, 8);
    Pow2Values();
    Value(s)
  }

  /** Eight bits to a byte; the last byte is filled up with zeros. */
  function Pack(s: bits): (r: seq<byte>)
    ensures 8 * |r| < |s| + 8 && |s| <= 8 * |r|
  {
    if s == [] then [] else if |s| <= 8 then [ByteOf(s)] else [ByteOf(s[..8])] + Pack(s[8..])
  }

  lemma NextByte(b: byte, rest: seq<byte>, i: nat)
    ensures i < 8 ==> StreamBit([b] + rest, i) == BitAt(b, i)
    ensures i >= 8 ==> StreamBit([b] + rest, i) == StreamBit(rest, i - 8)
  {
    hide BitAt;
    if i >= 8 {
      var q, r := i / 8, i % 8;
      assert (i - 8) / 8 == q - 1 && (i - 8) % 8 == r;
    }
  }

  lemma {:induction false} PackBit(s: bits, i: nat)
    ensures StreamBit(Pack(s), i) == Bit(i < |s| && s[i])
    decreases |s|
  {
    hide StreamBit, Value, BitAt;
    if s == [] {
      Nothing(i);
    } else {
      var first := if |s| <= 8 then s else s[..8];
      var rest := if |s| <= 8 then [] else s[8..];
      ValueBit(first, i);
      assert Pack(s) == [ByteOf(first)] + Pack(rest);
      NextByte(ByteOf(first), Pack(rest), i);
      if i >= 8 {
        PackBit(rest, i - 8);
      }
    }
  }

  lemma Nothing(i: nat)
    ensures StreamBit([], i) == 0
  {
  }

  /** The bits stand in the data from `pos` on. */
  ghost predicate Holds(data: seq<byte>, pos: nat, s: bits) {
    forall i :: 0 <= i < |s| ==> StreamBit(data, pos + i) == Bit(s[i])
  }

  lemma HoldsParts(data: seq<byte>, pos: nat, a: bits, b: bits)
    requires Holds(data, pos, a + b)
    ensures Holds(data, pos, a) && Holds(data, pos + |a|, b)
  {
    hide StreamBit;
    forall i | 0 <= i < |a| ensures StreamBit(data, pos + i) == Bit(a[i]) {
      assert (a + b)[i] == a[i];
    }
    forall i | 0 <= i < |b| ensures StreamBit(data, pos + |a| + i) == Bit(b[i]) {
      assert (a + b)[|a| + i] == b[i];
      assert pos + |a| + i == pos + (|a| + i);
    }
  }

  lemma {:induction false} FieldRead(data: seq<byte>, pos: nat, v: nat, n: nat)
    requires Holds(data, pos, Field(v, n)) && v < Pow2(n)
    ensures LE(data, pos, n) == v
    decreases n
  {
    hide StreamBit, LE;
    if n == 0 {
      LEEmpty(data, pos);
    } else {
      LEStep(data, pos, n);
      HoldsParts(data, pos, [v % 2 == 1], Field(v / 2, n - 1));
      assert StreamBit(data, pos + 0) == Bit([v % 2 == 1][0]);
      FieldRead(data, pos + 1, v / 2, n - 1);
    }
  }

  lemma {:induction false} WordRead(data: seq<byte>, pos: nat, v: nat, n: nat)
    requires Holds(data, pos, Word(v, n)) && v < Pow2(n)
    ensures BE(data, pos, n) == v
    decreases n
  {
    hide StreamBit;
    if n > 0 {
      HoldsParts(data, pos, Word(v / 2, n - 1), [v % 2 == 1]);
      assert StreamBit(data, pos + (n - 1) + 0) == Bit([v % 2 == 1][0]);
      WordRead(data, pos, v / 2, n - 1);
    }
  }

  /** Packed bits are found again wherever the bytes stand. */
  lemma {:induction false} Found(before: seq<byte>, s: bits, after: seq<byte>)
    ensures Holds(before + Pack(s) + after, 8 * |before|, s)
    decreases |before|
  {
    hide StreamBit, Pack;
    var data := before + Pack(s) + after;
    forall i | 0 <= i < |s| ensures StreamBit(data, 8 * |before| + i) == Bit(s[i]) {
      PackBit(s, i);
      SameBit(before, Pack(s), after, i);
    }
  }

  lemma SameBit(before: seq<byte>, bytes: seq<byte>, after: seq<byte>, i: nat)
    requires i < 8 * |bytes|
    ensures StreamBit(before + bytes + after, 8 * |before| + i) == StreamBit(bytes, i)
  {
    hide BitAt;
    var k := i / 8;
    assert (8 * |before| + i) / 8 == |before| + k && (8 * |before| + i) % 8 == i % 8;
    assert (before + bytes + after)[|before| + k] == bytes[k];
  }
}
