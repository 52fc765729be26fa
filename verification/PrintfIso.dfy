/** Section 7.21.6.1 of ISO C11 as the reference: when what the conversion buffer gives is the field the
    standard asks for, and that its digits denote the argument. */
module PrintfIso {
  import opened PrintfSpec

  // ----- the reference -----

  function Digits(v: nat, base: nat, upper: bool): (s: text)
    requires 2 <= base <= 16
    ensures |s| > 0
    decreases v
  {
    if v < base then [DigitChar(v, upper)]
    else
      Smaller(v, base);
      Digits(v / base, base, upper) + [DigitChar(v % base, upper)]
  }

  lemma Smaller(v: nat, base: nat)
    requires base >= 2
    ensures v / base < v || v == 0
    ensures v >= base ==> v / base > 0
    ensures v < base ==> v / base == 0 && v % base == v
  {
    var q, r := v / base, v % base;
    assert v == base * q + r;
    if q >= 1 {
      assert base * q >= 2 * q;
    }
  }

  function Sign(negative: bool, f: Flags): (s: text)
    ensures |s| <= 1
  {
    if negative then "-" else if f.plus then "+" else if f.space then " " else ""
  }

  /** Zero with precision zero has no digits. */
  function IsoDigits(v: nat, base: nat, prec: nat, f: Flags): text
    requires 2 <= base <= 16
  {
    if v == 0 && f.precise && prec == 0 then [] else Digits(v, base, f.upper)
  }

  /** Leading zeros: the precision's, or those that fill the width under the zero flag. */
  function IsoZeros(n: nat, sign: nat, prec: nat, width: nat, f: Flags): int {
    if f.precise then prec - n else if f.zero && !f.left then width - sign - n else 0
  }

  function IsoBody(v: nat, negative: bool, base: nat, prec: nat, width: nat, f: Flags): text
    requires 2 <= base <= 16
  {
    var digits, sign := IsoDigits(v, base, prec, f), Sign(negative, f);
    sign + Repeat('0', IsoZeros(|digits|, |sign|, prec, width, f)) + digits
  }

  function Justified(body: text, width: nat, f: Flags): text {
    if f.left then body + Repeat(' ', width - |body|) else Repeat(' ', width - |body|) + body
  }

  function IsoField(v: nat, negative: bool, base: nat, prec: nat, width: nat, f: Flags): text
    requires 2 <= base <= 16
  {
    Justified(IsoBody(v, negative, base, prec, width, f), width, f)
  }

  // ----- reading back -----

  lemma DigitCharValue(d: nat, upper: bool)
    requires d < 16
    ensures DigitValue(DigitChar(d, upper)) == d
  {
  }

  lemma {:induction false} DigitsNumber(v: nat, base: nat, upper: bool)
    requires 2 <= base <= 16
    ensures Number(Digits(v, base, upper), base) == v
    decreases v
  {
    hide DigitChar, DigitValue;
    Smaller(v, base);
    var d := DigitChar(v % base, upper);
    DigitCharValue(v % base, upper);
    if v < base {
      NumberAppend([], d, base);
      assert [] + [d] == [d];
    } else {
      DigitsNumber(v / base, base, upper);
      NumberAppend(Digits(v / base, base, upper), d, base);
    }
  }

  lemma {:induction false} ZerosNumber(n: int, s: text, base: nat)
    ensures Number(Repeat('0', n) + s, base) == Number(s, base)
    decreases |s|, n
  {
    if s == [] {
      if n > 0 {
        ZerosNumber(n - 1, [], base);
        assert (Repeat('0', n) + [])[..n - 1] == Repeat('0', n - 1) + [];
      } else {
        assert Repeat('0', n) + [] == [];
      }
    } else {
      var k := |s| - 1;
      ZerosNumber(n, s[..k], base);
      var t := Repeat('0', n) + s;
      assert t[..|t| - 1] == Repeat('0', n) + s[..k];
    }
  }

  /** An ISO field is blanks, a sign and digits that denote the argument, as wide as asked for or as
      wide as it needs to be. */
  lemma ReadBack(v: nat, negative: bool, base: nat, prec: nat, width: nat, f: Flags)
    requires 2 <= base <= 16
    ensures var body := IsoBody(v, negative, base, prec, width, f);
      var field, sign := IsoField(v, negative, base, prec, width, f), Sign(negative, f);
      && (field == Repeat(' ', width - |body|) + body || field == body + Repeat(' ', width - |body|))
      && |sign| <= |body| && body[..|sign|] == sign && Number(body[|sign|..], base) == v
      && |field| == if width > |body| then width else |body|
  {
    hide Number, Repeat, IsoZeros, IsoDigits;
    var digits, sign := IsoDigits(v, base, prec, f), Sign(negative, f);
    var zeros := IsoZeros(|digits|, |sign|, prec, width, f);
    var body := IsoBody(v, negative, base, prec, width, f);
    assert body == sign + (Repeat('0', zeros) + digits);
    assert body[|sign|..] == Repeat('0', zeros) + digits;
    ZerosNumber(zeros, digits, base);
    IsoDigitsNumber(v, base, prec, f);
  }

  lemma IsoDigitsNumber(v: nat, base: nat, prec: nat, f: Flags)
    requires 2 <= base <= 16
    ensures Number(IsoDigits(v, base, prec, f), base) == v
  {
    hide Digits;
    DigitsNumber(v, base, f.upper);
  }

  // ----- the conversion buffer holds the reference's field -----

  lemma {:induction false} ReverseAppend(a: text, b: text)
    ensures Reverse(a + b) == Reverse(b) + Reverse(a)
    decreases |a|
  {
    if a == [] {
      assert a + b == b;
    } else {
      assert (a + b)[1..] == a[1..] + b;
      ReverseAppend(a[1..], b);
    }
  }

  lemma {:induction false} ReverseRepeat(c: char, n: int)
    ensures Reverse(Repeat(c, n)) == Repeat(c, n)
    decreases n
  {
    if n > 0 {
      ReverseRepeat(c, n - 1);
      assert Repeat(c, n)[1..] == Repeat(c, n - 1);
      assert Repeat(c, n - 1) + [c] == Repeat(c, n);
    }
  }

  /** The last `k` characters of a text. */
  function Last(s: text, k: nat): (r: text)
    ensures |r| == Min(|s|, k)
  {
    if |s| <= k then s else s[|s| - k..]
  }

  /** The buffer's digits, reversed, are the number's low-order ones, as many as there is room for. */
  lemma {:induction false} DigitsReversed(v: nat, base: nat, upper: bool, room: nat)
    requires 2 <= base <= 16 && room > 0
    ensures Reverse(DigitsUp(v, base, upper, room)) == Last(Digits(v, base, upper), room)
    decreases room
  {
    hide DigitChar, DigitsUp, Digits, Reverse, Last;
    Smaller(v, base);
    var d := DigitChar(v % base, upper);
    DigitsSteps(v, base, upper, room);
    if v >= base && room > 1 {
      DigitsReversed(v / base, base, upper, room - 1);
      ReverseFirst(d, DigitsUp(v / base, base, upper, room - 1));
      LastOfMore(Digits(v / base, base, upper), d, room);
    } else {
      ReverseSign([d]);
      if v >= base { LastOfMore(Digits(v / base, base, upper), d, 1); } else { LastOfMore([], d, room); }
    }
  }

  lemma DigitsSteps(v: nat, base: nat, upper: bool, room: nat)
    requires 2 <= base <= 16 && room > 0
    ensures v / base >= 0 && v % base < 16
    ensures v < base || room == 1 ==> DigitsUp(v, base, upper, room) == [DigitChar(v % base, upper)]
    ensures v >= base && room > 1 ==>
      DigitsUp(v, base, upper, room) == [DigitChar(v % base, upper)] + DigitsUp(v / base, base, upper, room - 1)
    ensures Digits(v, base, upper) == (if v < base then [] else Digits(v / base, base, upper)) + [DigitChar(v % base, upper)]
  {
    hide DigitChar;
    Smaller(v, base);
  }

  lemma ReverseFirst(c: char, s: text)
    ensures Reverse([c] + s) == Reverse(s) + [c]
  {
    assert ([c] + s)[1..] == s;
  }

  lemma LastOfMore(high: text, d: char, room: nat)
    requires room > 0
    ensures Last(high + [d], room) == Last(high, room - 1) + [d]
    ensures high == [] || room == 1 ==> Last(high + [d], room) == [d]
  {
  }

  function Pow8(k: nat): (p: nat)
    ensures p > 0
  {
    if k == 0 then 1 else 8 * Pow8(k - 1)
  }

  lemma {:induction false} FewDigits(v: nat, base: nat, upper: bool, k: nat)
    requires (base == 8 || base == 10 || base == 16) && k > 0 && v < Pow8(k)
    ensures |Digits(v, base, upper)| <= k
    decreases k
  {
    assert Pow8(1) == 8;
    if v >= base {
      FewDigits(v / base, base, upper, k - 1);
    }
  }

  lemma SixtyFourBits()
    ensures Pow8(22) > 0xFFFF_FFFF_FFFF_FFFF
  {
    assert Pow8(7) == 0x20_0000;
    assert Pow8(14) == 0x400_0000_0000;
    assert Pow8(21) == 0x8000_0000_0000_0000;
  }

  /** The digits that the code writes: none for zero when a precision is given, and never more than
      the buffer holds. */
  function CodeDigits(v: nat, base: nat, f: Flags): (s: text)
    requires 2 <= base <= 16
    ensures |s| <= NTOA_SIZE
  {
    if f.precise && v == 0 then [] else Last(Digits(v, base, f.upper), NTOA_SIZE)
  }

  function Max(a: int, b: int): int {
    if a < b then b else a
  }

  /** The digits and zeros that the code writes: no zeros under the `-` flag. */
  function CodeLength(n: nat, negative: bool, prec: nat, width: nat, f: Flags): nat {
    if f.left then n
    else
      var m := Max(n, Min(prec, NTOA_SIZE));
      if f.zero then Max(m, Min(ZeroWidth(width, negative, f), NTOA_SIZE)) else m
  }

  /** The sign, which is lost when digits fill the buffer, then zeros, then digits. */
  function CodeBody(v: nat, negative: bool, base: nat, prec: nat, width: nat, f: Flags): text
    requires 2 <= base <= 16
  {
    var digits := CodeDigits(v, base, f);
    var n := CodeLength(|digits|, negative, prec, width, f);
    (if n < NTOA_SIZE then Sign(negative, f) else []) + Repeat('0', n - |digits|) + digits
  }

  /** Blanks on one side, except that zero padding has none. */
  function CodeJustified(body: text, width: nat, f: Flags): text {
    if f.left then body + Repeat(' ', width - |body|)
    else if f.zero then body
    else Repeat(' ', width - |body|) + body
  }

  lemma PaddedIs(s: text, negative: bool, prec: nat, width: nat, f: Flags)
    requires |s| <= NTOA_SIZE
    ensures Padded(s, negative, prec, width, f) == s + Repeat('0', CodeLength(|s|, negative, prec, width, f) - |s|)
    ensures |s| <= CodeLength(|s|, negative, prec, width, f) <= NTOA_SIZE
  {
    if !f.left {
      var t := ZerosTo(s, prec);
      var m := Max(|s|, Min(prec, NTOA_SIZE));
      assert t == s + Repeat('0', m - |s|);
      if f.zero {
        RepeatMore(s, m - |s|, Min(ZeroWidth(width, negative, f), NTOA_SIZE) - |t|);
      }
    }
  }

  lemma RepeatMore(s: text, m: int, n: int)
    requires m >= 0
    ensures s + Repeat('0', m) + Repeat('0', n) == s + Repeat('0', if n > 0 then m + n else m)
  {
  }

  /** Integer flags, as the conversions set them, without the alternative form. */
  predicate PlainFlags(prec: nat, f: Flags) {
    !f.hash && (f.zero ==> !f.precise) && (!f.precise ==> prec == 0)
  }

  /** The conversion buffer: digits, zeros and, if there is room, the sign. */
  lemma BufferedIs(v: nat, negative: bool, base: nat, prec: nat, width: nat, f: Flags, up: text)
    requires 2 <= base <= 16 && !f.hash && |up| <= NTOA_SIZE
    requires up == if !f.precise || v != 0 then DigitsUp(v, base, f.upper, NTOA_SIZE) else []
    ensures var n := CodeLength(|up|, negative, prec, width, f);
      Buffered(v, negative, base, prec, width, f)
      == (up + Repeat('0', n - |up|)) + (if n < NTOA_SIZE then Sign(negative, f) else [])
  {
    hide DigitsUp, Repeat, Padded, ZeroWidth, CodeLength;
    var g := if v == 0 then f.(hash := false) else f;
    assert g == f;
    PaddedIs(up, negative, prec, width, f);
  }

  /** Read forwards, the buffer is the code's body, for every value, base, width and precision. */
  lemma BufferHolds(v: nat, negative: bool, base: nat, prec: nat, width: nat, f: Flags)
    requires 2 <= base <= 16 && !f.hash
    ensures Reverse(Buffered(v, negative, base, prec, width, f)) == CodeBody(v, negative, base, prec, width, f)
  {
    hide Digits, DigitsUp, Repeat, Reverse, Buffered, CodeLength, Sign, Last;
    DigitsReversed(v, base, f.upper, NTOA_SIZE);
    ReverseNothing();
    var up := if !f.precise || v != 0 then DigitsUp(v, base, f.upper, NTOA_SIZE) else [];
    var n := CodeLength(|up|, negative, prec, width, f);
    var sign := if n < NTOA_SIZE then Sign(negative, f) else [];
    BufferedIs(v, negative, base, prec, width, f, up);
    ReverseAppend(up + Repeat('0', n - |up|), sign);
    ReverseAppend(up, Repeat('0', n - |up|));
    ReverseRepeat('0', n - |up|);
    ReverseSign(sign);
  }

  lemma ReverseNothing()
    ensures Reverse([]) == []
  {
  }

  lemma ReverseSign(s: text)
    requires |s| <= 1
    ensures Reverse(s) == s
  {
    if s != [] {
      assert s[1..] == [] && s == [s[0]];
    }
  }

  lemma FieldIsCode(v: nat, negative: bool, base: nat, prec: nat, width: nat, f: Flags)
    requires 2 <= base <= 16 && !f.hash
    ensures IntegerField(v, negative, base, prec, width, f) == CodeJustified(CodeBody(v, negative, base, prec, width, f), width, f)
  {
    hide Digits, Buffered, Reverse, Repeat, CodeBody;
    BufferHolds(v, negative, base, prec, width, f);
  }

  // ----- what can be read back from a printed field -----

  /** From every printed field of a 64-bit number, whatever its width, precision and flags, the
      number is read back; its sign too, unless digits fill the conversion buffer. */
  lemma FieldReadsBack(v: nat, negative: bool, base: nat, prec: nat, width: nat, f: Flags)
    requires (base == 8 || base == 10 || base == 16) && v <= 0xFFFF_FFFF_FFFF_FFFF && !f.hash
    ensures var body, field := CodeBody(v, negative, base, prec, width, f), IntegerField(v, negative, base, prec, width, f);
      var n := CodeLength(|CodeDigits(v, base, f)|, negative, prec, width, f);
      var sign := if n < NTOA_SIZE then Sign(negative, f) else [];
      && field == CodeJustified(body, width, f)
      && |body| == |sign| + n && body[..|sign|] == sign && Number(body[|sign|..], base) == v
      && (|body| <= width && (f.left || !f.zero) ==> |field| == width)
      && (|body| > width || (f.zero && !f.left) ==> field == body)
  {
    hide Digits, Number, IntegerField, CodeLength, Sign, CodeDigits, Pow8;
    FieldIsCode(v, negative, base, prec, width, f);
    SixtyFourBits();
    FewDigits(v, base, f.upper, 22);
    var digits := CodeDigits(v, base, f);
    var n := CodeLength(|digits|, negative, prec, width, f);
    var sign := if n < NTOA_SIZE then Sign(negative, f) else [];
    LengthsFit(|digits|, negative, prec, width, f);
    BodyNumber(sign, n - |digits|, digits, base);
    CodeDigitsNumber(v, base, f);
  }

  lemma BodyNumber(sign: text, z: nat, digits: text, base: nat)
    ensures var body := sign + Repeat('0', z) + digits;
      |body| == |sign| + z + |digits| && body[..|sign|] == sign && Number(body[|sign|..], base) == Number(digits, base)
  {
    hide Number;
    var body := sign + Repeat('0', z) + digits;
    assert body[|sign|..] == Repeat('0', z) + digits;
    ZerosNumber(z, digits, base);
  }

  lemma LengthsFit(n: nat, negative: bool, prec: nat, width: nat, f: Flags)
    requires n <= NTOA_SIZE
    ensures n <= CodeLength(n, negative, prec, width, f) <= NTOA_SIZE
  {
  }

  lemma CodeDigitsNumber(v: nat, base: nat, f: Flags)
    requires 2 <= base <= 16 && |Digits(v, base, f.upper)| <= NTOA_SIZE
    ensures Number(CodeDigits(v, base, f), base) == v
  {
    hide Digits;
    DigitsNumber(v, base, f.upper);
  }

  // ----- when the code prints the ISO field -----

  /** The digits of the number, of which zero has none when a precision is given. */
  function Written(v: nat, base: nat, f: Flags): text
    requires 2 <= base <= 16
  {
    if f.precise && v == 0 then [] else Digits(v, base, f.upper)
  }

  /** Left justification drops the zeros that a precision asks for. */
  predicate DropsZeros(v: nat, base: nat, prec: nat, f: Flags)
    requires 2 <= base <= 16
  {
    f.left && f.precise && |Written(v, base, f)| < prec
  }

  /** The field fits the conversion buffer.  One more character does no harm when it is the blank
      that stands for a plus sign, in front of which there is only padding. */
  predicate Fits(v: nat, negative: bool, base: nat, prec: nat, width: nat, f: Flags)
    requires 2 <= base <= 16
  {
    var n := |IsoBody(v, negative, base, prec, width, f)|;
    n <= NTOA_SIZE || (n == NTOA_SIZE + 1 && Sign(negative, f) == " " && width > NTOA_SIZE && !f.left && !f.zero)
  }

  /** How many digits the ISO field has, and what they are. */
  function IsoCount(v: nat, negative: bool, base: nat, prec: nat, width: nat, f: Flags): nat
    requires 2 <= base <= 16
  {
    Max(|Written(v, base, f)|, if f.precise then prec else if f.zero && !f.left then width - |Sign(negative, f)| else 0)
  }

  function IsoTail(v: nat, negative: bool, base: nat, prec: nat, width: nat, f: Flags): text
    requires 2 <= base <= 16
  {
    Repeat('0', IsoCount(v, negative, base, prec, width, f) - |Written(v, base, f)|) + Written(v, base, f)
  }

  lemma IsoBodyIs(v: nat, negative: bool, base: nat, prec: nat, width: nat, f: Flags)
    requires 2 <= base <= 16
    ensures IsoBody(v, negative, base, prec, width, f) == Sign(negative, f) + IsoTail(v, negative, base, prec, width, f)
    ensures |IsoTail(v, negative, base, prec, width, f)| == IsoCount(v, negative, base, prec, width, f)
  {
    hide Sign;
    if f.precise && v == 0 && prec > 0 {
      assert Digits(0, base, f.upper) == ['0'];
      assert Repeat('0', prec - 1) + ['0'] == Repeat('0', prec);
    }
  }

  /** Unless zeros are dropped, the code prints the last 32 of those digits. */
  lemma CodeBodyIs(v: nat, negative: bool, base: nat, prec: nat, width: nat, f: Flags)
    requires 2 <= base <= 16 && PlainFlags(prec, f) && !DropsZeros(v, base, prec, f)
    ensures var m := IsoCount(v, negative, base, prec, width, f);
      CodeBody(v, negative, base, prec, width, f)
      == (if m < NTOA_SIZE then Sign(negative, f) else []) + Last(IsoTail(v, negative, base, prec, width, f), NTOA_SIZE)
  {
    hide Digits, IsoCount, CodeLength, Sign, Repeat, Last, DropsZeros;
    var w, m := Written(v, base, f), IsoCount(v, negative, base, prec, width, f);
    CodeLengthIs(v, negative, base, prec, width, f);
    LastOfTail(w, m - |w|, NTOA_SIZE);
  }

  lemma CodeLengthIs(v: nat, negative: bool, base: nat, prec: nat, width: nat, f: Flags)
    requires 2 <= base <= 16 && PlainFlags(prec, f) && !DropsZeros(v, base, prec, f)
    ensures var m := IsoCount(v, negative, base, prec, width, f);
      CodeLength(|CodeDigits(v, base, f)|, negative, prec, width, f) == Min(m, NTOA_SIZE) && m >= |Written(v, base, f)|
  {
    hide Digits;
  }

  lemma LastOfTail(w: text, z: nat, k: nat)
    ensures Last(Repeat('0', z) + w, k) == Repeat('0', Min(z + |w|, k) - |Last(w, k)|) + Last(w, k)
  {
  }

  lemma NoBlanks(v: nat, negative: bool, base: nat, prec: nat, width: nat, f: Flags)
    requires 2 <= base <= 16
    ensures var t := IsoTail(v, negative, base, prec, width, f); forall k :: 0 <= k < |t| ==> t[k] != ' '
  {
    hide Digits;
    DigitsNotBlank(v, base, f.upper);
  }

  lemma {:induction false} DigitsNotBlank(v: nat, base: nat, upper: bool)
    requires 2 <= base <= 16
    ensures forall k :: 0 <= k < |Digits(v, base, upper)| ==> Digits(v, base, upper)[k] != ' '
    decreases v
  {
    Smaller(v, base);
    if v >= base {
      DigitsNotBlank(v / base, base, upper);
    }
  }

  /** Two left-justified bodies, one of which goes on with a digit where the other ends. */
  lemma LeftDiffers(code: text, iso: text, width: nat, f: Flags)
    requires f.left && |code| < |iso| && iso[|code|] != ' '
    ensures CodeJustified(code, width, f) != Justified(iso, width, f)
  {
    var a, b, k := CodeJustified(code, width, f), Justified(iso, width, f), |code|;
    assert b[k] == iso[k];
    assert |a| > k ==> a[k] == ' ';
  }

  /** Two right-justified bodies that end alike, one of which has something more in front. */
  lemma RightDiffers(code: text, iso: text, width: nat, f: Flags)
    requires !f.left && |code| < |iso| && (iso[|iso| - |code| - 1] != ' ' || f.zero || width <= |code|)
    ensures CodeJustified(code, width, f) != Justified(iso, width, f)
  {
    var a, b := CodeJustified(code, width, f), Justified(iso, width, f);
    if |a| == |b| {
      var k := |b| - |code| - 1;
      assert b[k] == iso[|iso| - |code| - 1];
      assert a[k] == ' ';
    }
  }

  lemma BlankSign(tail: text, width: nat, f: Flags)
    requires !f.left && !f.zero && width > |tail|
    ensures CodeJustified(tail, width, f) == Justified(" " + tail, width, f)
  {
    var n := width - |tail|;
    assert Repeat(' ', n) == Repeat(' ', n - 1) + " ";
  }

  /** An integer conversion prints exactly the ISO field if and only if it fits the conversion buffer
      and `-` does not meet a precision that asks for more digits than the number has. */
  lemma FieldIsIso(v: nat, negative: bool, base: nat, prec: nat, width: nat, f: Flags)
    requires 2 <= base <= 16 && PlainFlags(prec, f)
    ensures IntegerField(v, negative, base, prec, width, f) == IsoField(v, negative, base, prec, width, f)
            <==> !DropsZeros(v, base, prec, f) && Fits(v, negative, base, prec, width, f)
  {
    hide Digits, Buffered, Reverse, IntegerField, Repeat, IsoTail, CodeBody, IsoBody, Written, IsoCount, CodeJustified, Justified, Sign;
    FieldIsCode(v, negative, base, prec, width, f);
    IsoBodyIs(v, negative, base, prec, width, f);
    NoBlanks(v, negative, base, prec, width, f);
    if DropsZeros(v, base, prec, f) {
      Dropped(v, negative, base, prec, width, f);
    } else {
      CodeBodyIs(v, negative, base, prec, width, f);
      Filled(v, negative, base, prec, width, f);
      Compared(IsoTail(v, negative, base, prec, width, f), Sign(negative, f), width, f);
    }
  }

  /** Zero padding fills the field, so that no blanks are left to add. */
  lemma Filled(v: nat, negative: bool, base: nat, prec: nat, width: nat, f: Flags)
    requires 2 <= base <= 16 && PlainFlags(prec, f)
    ensures f.zero && !f.left ==> |IsoBody(v, negative, base, prec, width, f)| >= width
  {
    IsoBodyIs(v, negative, base, prec, width, f);
  }

  lemma Compared(tail: text, sign: text, width: nat, f: Flags)
    requires |sign| <= 1 && (forall k :: 0 <= k < |tail| ==> tail[k] != ' ')
    requires f.zero && !f.left ==> |sign| + |tail| >= width
    ensures var code := (if |tail| < NTOA_SIZE then sign else []) + Last(tail, NTOA_SIZE);
      var n := |sign| + |tail|;
      CodeJustified(code, width, f) == Justified(sign + tail, width, f)
      <==> n <= NTOA_SIZE || (n == NTOA_SIZE + 1 && sign == " " && width > NTOA_SIZE && !f.left && !f.zero)
  {
    var code := (if |tail| < NTOA_SIZE then sign else []) + Last(tail, NTOA_SIZE);
    var iso := sign + tail;
    if |iso| <= NTOA_SIZE {
      assert code == iso;
    } else if f.left {
      LeftDiffers(code, iso, width, f);
    } else if |tail| == NTOA_SIZE && sign == " " && width > NTOA_SIZE && !f.zero {
      assert code == tail;
      BlankSign(tail, width, f);
    } else {
      RightDiffers(code, iso, width, f);
    }
  }

  lemma Dropped(v: nat, negative: bool, base: nat, prec: nat, width: nat, f: Flags)
    requires 2 <= base <= 16 && DropsZeros(v, base, prec, f)
    ensures CodeJustified(CodeBody(v, negative, base, prec, width, f), width, f) != IsoField(v, negative, base, prec, width, f)
  {
    hide Digits, CodeJustified, Justified, Sign;
    IsoBodyIs(v, negative, base, prec, width, f);
    NoBlanks(v, negative, base, prec, width, f);
    var code, iso := CodeBody(v, negative, base, prec, width, f), IsoBody(v, negative, base, prec, width, f);
    var tail := IsoTail(v, negative, base, prec, width, f);
    assert iso[|code|] == tail[|code| - |Sign(negative, f)|];
    LeftDiffers(code, iso, width, f);
  }

  /** `%-5.3d` of 7 is printed without the two zeros that ISO C asks for. */
  lemma DroppedZeros()
    ensures var f := NO_FLAGS.(left := true, precise := true);
      DropsZeros(7, 10, 3, f)
      && IntegerField(7, false, 10, 3, 5, f) == "7    " && IsoField(7, false, 10, 3, 5, f) == "007  "
  {
    var f := NO_FLAGS.(left := true, precise := true);
    assert Digits(7, 10, false) == "7";
    FieldIsCode(7, false, 10, 3, 5, f);
    assert CodeBody(7, false, 10, 3, 5, f) == "7" && IsoBody(7, false, 10, 3, 5, f) == "007";
    assert Repeat(' ', 4) == "    " && Repeat(' ', 2) == "  ";
  }

  /** `%.32d` and `%033d` of -5 are printed without the minus sign. */
  lemma DroppedSign()
    ensures IntegerField(5, true, 10, 32, 0, NO_FLAGS.(precise := true)) == Repeat('0', 31) + "5"
    ensures IntegerField(5, true, 10, 0, 33, NO_FLAGS.(zero := true)) == Repeat('0', 31) + "5"
  {
    var f, g := NO_FLAGS.(precise := true), NO_FLAGS.(zero := true);
    assert Digits(5, 10, false) == "5";
    FieldIsCode(5, true, 10, 32, 0, f);
    FieldIsCode(5, true, 10, 0, 33, g);
    assert CodeBody(5, true, 10, 32, 0, f) == Repeat('0', 31) + "5";
    assert CodeBody(5, true, 10, 0, 33, g) == Repeat('0', 31) + "5";
  }

  // ----- whole conversions -----

  /** Conversions whose flags leave the alternative form out. */
  predicate Plain(c: char, d: Directive) {
    d.Directive? && IsInteger(c) && (d.f.hash ==> Base(c) == 10) && (!d.f.precise ==> d.prec == 0)
  }

  /** The ISO field of an argument, as its type sees it. */
  function IsoConversion(c: char, d: Directive, v: int): text
    requires d.Directive?
  {
    var n := Value(c, d.bits, v);
    IsoField(Magnitude(n), n < 0, Base(c), d.prec, d.width, IntegerFlags(c, d.f))
  }

  /** When a conversion prints it: a condition on the directive and the argument. */
  predicate PrintsIso(c: char, d: Directive, v: int)
    requires d.Directive?
  {
    var n, f := Value(c, d.bits, v), IntegerFlags(c, d.f);
    !DropsZeros(Magnitude(n), Base(c), d.prec, f) && Fits(Magnitude(n), n < 0, Base(c), d.prec, d.width, f)
  }

  lemma ConversionIsIso(c: char, d: Directive, v: int)
    requires Plain(c, d)
    ensures Integer(c, d, v) == IsoConversion(c, d, v) <==> PrintsIso(c, d, v)
  {
    hide IntegerField, IsoField, DropsZeros, Fits, Value, IntegerFlags, Magnitude;
    var n, f := Value(c, d.bits, v), IntegerFlags(c, d.f);
    FlagsFit(c, d.f);
    FieldIsIso(Magnitude(n), n < 0, Base(c), d.prec, d.width, f);
  }

  /** Every field printed by `d`, `i`, `u`, `x`, `X` or `o` is blanks, a sign unless 32 digits leave
      no room for it, and digits that denote the argument. */
  lemma ConversionReadsBack(c: char, d: Directive, v: int)
    requires Plain(c, d) && c != 'b'
    ensures var n, f := Value(c, d.bits, v), IntegerFlags(c, d.f);
      var body := CodeBody(Magnitude(n), n < 0, Base(c), d.prec, d.width, f);
      var k := CodeLength(|CodeDigits(Magnitude(n), Base(c), f)|, n < 0, d.prec, d.width, f);
      var sign := if k < NTOA_SIZE then Sign(n < 0, f) else [];
      && Integer(c, d, v) == CodeJustified(body, d.width, f)
      && |body| == |sign| + k && body[..|sign|] == sign && Number(body[|sign|..], Base(c)) == Magnitude(n)
  {
    hide IntegerField, Value, IntegerFlags, Magnitude, CodeBody, CodeDigits, CodeLength, Number, Sign, CodeJustified;
    var n, f := Value(c, d.bits, v), IntegerFlags(c, d.f);
    ValueFits(c, d.bits, v);
    FlagsFit(c, d.f);
    FieldReadsBack(Magnitude(n), n < 0, Base(c), d.prec, d.width, f);
  }

  lemma ValueFits(c: char, bits: nat, v: int)
    ensures Magnitude(Value(c, bits, v)) <= 0xFFFF_FFFF_FFFF_FFFF
  {
    hide Modulus;
    var m := Modulus(bits);
    ModulusFits(bits);
    assert 0 <= (v + m / 2) % m < m && 0 <= v % m < m;
  }

  lemma ModulusFits(bits: nat)
    ensures 0 < Modulus(bits) <= 0x1_0000_0000_0000_0000
  {
  }

  lemma FlagsFit(c: char, f: Flags)
    requires IsInteger(c) && (f.hash ==> Base(c) == 10)
    ensures var g := IntegerFlags(c, f); !g.hash && (g.zero ==> !g.precise) && g.precise == f.precise
  {
  }

  // ----- precision as an argument -----

  /** In ISO C a negative precision counts as none at all. */
  function IsoPrecision(d: Directive): Directive
    requires d.Directive? && d.args != [] && d.args[0].Num?
  {
    var p := Int32(d.args[0].v);
    if p < 0 then d.(next := d.next + 2, args := d.args[1..])
    else d.(f := d.f.(precise := true), prec := p, next := d.next + 2, args := d.args[1..])
  }

  /** `.*` is read as ISO C asks exactly when its argument is not negative. */
  lemma StarPrecision(format: text, d: Directive)
    requires d.Directive? && d.args != [] && d.args[0].Num? && !d.f.precise
    requires At(format, d.next) == '.' && At(format, d.next + 1) == '*'
    ensures PrecFrom(format, d) == IsoPrecision(d) <==> Int32(d.args[0].v) >= 0
  {
    hide Int32;
    assert PrecFrom(format, d).f.precise;
  }

  /** So `%.*s` with precision -1 prints nothing of a string. */
  lemma LostString(s: text)
    ensures Render("%.*s", 0, [Num(-1), Str(s)]) == Output([])
  {
    var format, args := "%.*s", [Num(-1), Str(s)];
    assert FlagsFrom(format, 1, NO_FLAGS) == (NO_FLAGS, 1);
    var d := Directive(NO_FLAGS, 0, 0, 32, 1, args);
    assert WidthFrom(format, 1, NO_FLAGS, args) == d;
    var e := d.(f := NO_FLAGS.(precise := true), next := 3, args := [Str(s)]);
    assert args[1..] == [Str(s)];
    assert PrecFrom(format, d) == e;
    assert DirectiveFrom(format, 1, args) == e;
    assert e.args[1..] == [];
    assert Convert('s', e) == Piece([], []);
    assert Render(format, 4, []) == Output([]);
  }
}
