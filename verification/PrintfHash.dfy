/** The alternative form of hexadecimal and octal conversions (the `#` flag, section 7.21.6.1 of ISO C11):
    what is printed, and when it is what the standard asks for. */
module PrintfHash {
  import opened PrintfSpec
  import opened PrintfIso

  function Prefix(base: nat, f: Flags): text {
    if base == 16 then (if f.upper then "0X" else "0x") else if base == 2 then "0b" else "0"
  }

  // ----- what is printed -----

  /** How many leading characters make way for the prefix. */
  function Displaced(n: nat, base: nat, prec: nat, width: nat, f: Flags): (k: nat)
    ensures k <= n
  {
    if f.precise || n == 0 || (n != prec && n != width) then 0
    else if n > 1 && base == 16 then 2 else 1
  }

  /** The prefix comes last into the buffer, as far as there is room. */
  lemma HashedReversed(s: text, base: nat, prec: nat, width: nat, f: Flags)
    requires f.hash && |s| <= NTOA_SIZE
    ensures Reverse(Hashed(s, base, prec, width, f))
      == Last(Prefix(base, f) + Reverse(s)[Displaced(|s|, base, prec, width, f)..], NTOA_SIZE)
  {
    hide Reverse, Hashed, Displaced, Suffix, Prefix, Last;
    var k := Displaced(|s|, base, prec, width, f);
    var t := s[..|s| - k];
    ReverseTake(s, k);
    HashedIs(s, base, prec, width, f);
    ReverseAppend(t, Suffix(|t|, base, f));
    SuffixReversed(Reverse(t), base, f);
  }

  lemma ReverseTake(s: text, k: nat)
    requires k <= |s|
    ensures Reverse(s)[k..] == Reverse(s[..|s| - k])
  {
    hide Reverse;
    var t, rest := s[..|s| - k], s[|s| - k..];
    assert s == t + rest;
    ReverseAppend(t, rest);
  }

  lemma HashedIs(s: text, base: nat, prec: nat, width: nat, f: Flags)
    requires f.hash && |s| <= NTOA_SIZE
    ensures var t := s[..|s| - Displaced(|s|, base, prec, width, f)];
      Hashed(s, base, prec, width, f) == t + Suffix(|t|, base, f)
  {
    var t := s[..|s| - Displaced(|s|, base, prec, width, f)];
    PutBoth(t, 'X');
    PutBoth(t, 'x');
    PutBoth(t, 'b');
  }

  lemma PutBoth(t: text, mark: char)
    requires |t| <= NTOA_SIZE
    ensures PutIfRoom(PutIfRoom(t, mark), '0')
      == t + if |t| + 1 < NTOA_SIZE then [mark] + "0" else if |t| < NTOA_SIZE then [mark] else ""
    ensures PutIfRoom(t, '0') == t + if |t| < NTOA_SIZE then "0" else ""
  {
    if |t| + 1 < NTOA_SIZE {
      assert t + [mark] + "0" == t + ([mark] + "0");
    }
  }

  /** What the buffer gets after `n` characters. */
  function Suffix(n: nat, base: nat, f: Flags): text {
    var mark := if base == 16 then (if f.upper then "X" else "x") else if base == 2 then "b" else "";
    if n + |mark| < NTOA_SIZE then mark + "0" else if n < NTOA_SIZE then mark else ""
  }

  lemma SuffixReversed(t: text, base: nat, f: Flags)
    requires |t| <= NTOA_SIZE
    ensures Reverse(Suffix(|t|, base, f)) + t == Last(Prefix(base, f) + t, NTOA_SIZE)
  {
    var x := Suffix(|t|, base, f);
    if |x| == 2 {
      assert x[1..][1..] == [] && Reverse(x[1..]) == [x[1]];
      assert Reverse(x) == [x[1], x[0]];
    } else {
      ReverseSign(x);
    }
  }

  /** Flags of an unsigned conversion in the alternative form, as `x`, `X` and `o` set them. */
  predicate HashFlags(prec: nat, f: Flags) {
    f.hash && !f.plus && !f.space && (f.zero ==> !f.precise) && (!f.precise ==> prec == 0)
  }

  /** The printed field of a number with these digits, without its blanks. */
  function HashBody(all: text, base: nat, prec: nat, width: nat, f: Flags): text {
    var digits := Last(all, NTOA_SIZE);
    var n := CodeLength(|digits|, false, prec, width, f);
    var padded := Repeat('0', n - |digits|) + digits;
    Last(Prefix(base, f) + padded[Min(|padded|, Displaced(n, base, prec, width, f))..], NTOA_SIZE)
  }

  lemma HashField(v: nat, base: nat, prec: nat, width: nat, f: Flags)
    requires 2 <= base <= 16 && v > 0 && HashFlags(prec, f)
    ensures IntegerField(v, false, base, prec, width, f)
      == CodeJustified(HashBody(Digits(v, base, f.upper), base, prec, width, f), width, f)
  {
    hide Digits, DigitsUp, Repeat, Reverse, Hashed, CodeLength, Last, Prefix, Displaced, Buffered;
    var up := DigitsUp(v, base, f.upper, NTOA_SIZE);
    DigitsReversed(v, base, f.upper, NTOA_SIZE);
    var n := CodeLength(|up|, false, prec, width, f);
    HashBuffered(v, base, prec, width, f, up);
    ReverseAppend(up, Repeat('0', n - |up|));
    ReverseRepeat('0', n - |up|);
    HashedReversed(up + Repeat('0', n - |up|), base, prec, width, f);
  }

  lemma HashBuffered(v: nat, base: nat, prec: nat, width: nat, f: Flags, up: text)
    requires 2 <= base <= 16 && v > 0 && HashFlags(prec, f) && up == DigitsUp(v, base, f.upper, NTOA_SIZE)
    ensures var n := CodeLength(|up|, false, prec, width, f);
      |up| <= n <= NTOA_SIZE && Buffered(v, false, base, prec, width, f) == Hashed(up + Repeat('0', n - |up|), base, prec, width, f)
  {
    hide DigitsUp, Repeat, Hashed, CodeLength, Padded;
    PaddedIs(up, false, prec, width, f);
  }

  // ----- what ISO C asks for -----

  /** How many zeros stand before `n` digits: those of the precision or of the width; and for octal at
      least one, which is the whole of the alternative form. */
  function IsoHashZeros(n: nat, base: nat, prec: nat, width: nat, f: Flags): nat {
    var asked := if f.precise then prec - n else if f.zero && !f.left then width - (if base == 16 then 2 else 0) - n else 0;
    Max(if base == 16 then 0 else 1, asked)
  }

  function IsoHashBody(digits: text, base: nat, prec: nat, width: nat, f: Flags): text {
    (if base == 16 then Prefix(base, f) else "") + Repeat('0', IsoHashZeros(|digits|, base, prec, width, f)) + digits
  }

  /** The `n` digits just fill the width, so that some make way for the prefix; or a precision asks for
      more digits, which left justification drops and octal counts without the zero of the prefix. */
  predicate HashFails(n: nat, base: nat, prec: nat, width: nat, f: Flags) {
    if !f.precise then n == width || (base == 16 && f.zero && !f.left && n + 1 == width)
    else if base == 16 then f.left && n < prec
    else if f.left then n + 1 < prec
    else n < prec < NTOA_SIZE
  }

  /** An alternative form is printed as ISO C asks if and only if it fits the conversion buffer and none
      of that happens. */
  lemma HashIsIso(v: nat, base: nat, prec: nat, width: nat, f: Flags)
    requires (base == 8 || base == 16) && v > 0 && HashFlags(prec, f)
    ensures var digits := Digits(v, base, f.upper);
      var iso := IsoHashBody(digits, base, prec, width, f);
      IntegerField(v, false, base, prec, width, f) == Justified(iso, width, f)
      <==> |iso| <= NTOA_SIZE && !HashFails(|digits|, base, prec, width, f)
  {
    hide Digits, IntegerField, HashBody, IsoHashBody, CodeJustified, Justified, HashFails;
    HashField(v, base, prec, width, f);
    DigitsNotBlank(v, base, f.upper);
    HashCompared(Digits(v, base, f.upper), base, prec, width, f);
  }

  lemma HashCompared(digits: text, base: nat, prec: nat, width: nat, f: Flags)
    requires (base == 8 || base == 16) && digits != [] && NotBlank(digits) && HashFlags(prec, f)
    ensures var code, iso := HashBody(digits, base, prec, width, f), IsoHashBody(digits, base, prec, width, f);
      CodeJustified(code, width, f) == Justified(iso, width, f)
      <==> |iso| <= NTOA_SIZE && !HashFails(|digits|, base, prec, width, f)
  {
    hide HashBody, IsoHashBody, CodeJustified, Justified, HashFails, NotBlank;
    var code, iso := HashBody(digits, base, prec, width, f), IsoHashBody(digits, base, prec, width, f);
    Lengths(digits, base, prec, width, f);
    HashNotBlank(digits, base, prec, width, f);
    if |iso| <= NTOA_SIZE && !HashFails(|digits|, base, prec, width, f) {
      SameBody(digits, base, prec, width, f);
      SameField(iso, width, f);
    } else {
      Differ(code, iso, width, f);
    }
  }

  function CodeSize(n: nat, base: nat, prec: nat, width: nat, f: Flags): nat {
    var m := CodeLength(Min(n, NTOA_SIZE), false, prec, width, f);
    Min((if base == 16 then 2 else 1) + m - Min(m, Displaced(m, base, prec, width, f)), NTOA_SIZE)
  }

  /** Otherwise the lengths tell the two apart. */
  lemma Lengths(digits: text, base: nat, prec: nat, width: nat, f: Flags)
    requires (base == 8 || base == 16) && digits != [] && HashFlags(prec, f)
    ensures var code, iso := HashBody(digits, base, prec, width, f), IsoHashBody(digits, base, prec, width, f);
      && (f.zero && !f.left ==> |iso| >= width)
      && (|code| == |iso| <==> |iso| <= NTOA_SIZE && !HashFails(|digits|, base, prec, width, f))
  {
    hide CodeLength, Displaced, IsoHashZeros, HashFails, Repeat;
    LengthsFit(Min(|digits|, NTOA_SIZE), false, prec, width, f);
    Sizes(|digits|, base, prec, width, f);
  }

  lemma Sizes(n: nat, base: nat, prec: nat, width: nat, f: Flags)
    requires (base == 8 || base == 16) && n > 0 && HashFlags(prec, f)
    ensures var iso := (if base == 16 then 2 else 0) + IsoHashZeros(n, base, prec, width, f) + n;
      && (f.zero && !f.left ==> iso >= width)
      && (CodeSize(n, base, prec, width, f) == iso <==> iso <= NTOA_SIZE && !HashFails(n, base, prec, width, f))
  {
  }

  lemma SameBody(digits: text, base: nat, prec: nat, width: nat, f: Flags)
    requires (base == 8 || base == 16) && digits != [] && HashFlags(prec, f) && |IsoHashBody(digits, base, prec, width, f)| <= NTOA_SIZE
    requires !HashFails(|digits|, base, prec, width, f)
    ensures HashBody(digits, base, prec, width, f) == IsoHashBody(digits, base, prec, width, f)
  {
    hide CodeLength, Displaced, IsoHashZeros, HashFails, Repeat, Prefix;
    var n := |digits|;
    OctalPrefix(f);
    HexPrefix(f, Repeat('0', IsoHashZeros(n, base, prec, width, f)), digits);
    NothingLost(n, base, prec, width, f);
    var m := CodeLength(n, false, prec, width, f);
    var k := Displaced(m, base, prec, width, f);
    TakenZeros(digits, m - n, k);
    OneMoreZero(digits, m - n - k);
  }

  lemma OctalPrefix(f: Flags)
    ensures Prefix(8, f) == "0"
  {
  }

  lemma HexPrefix(f: Flags, zeros: text, digits: text)
    ensures |Prefix(16, f)| == 2 && Prefix(16, f) + (zeros + digits) == Prefix(16, f) + zeros + digits
  {
  }

  /** Only zeros make way, and as many stay as there should be. */
  lemma NothingLost(n: nat, base: nat, prec: nat, width: nat, f: Flags)
    requires (base == 8 || base == 16) && n > 0 && HashFlags(prec, f) && !HashFails(n, base, prec, width, f)
    requires (if base == 16 then 2 else 0) + IsoHashZeros(n, base, prec, width, f) + n <= NTOA_SIZE
    ensures var m, z := CodeLength(n, false, prec, width, f), IsoHashZeros(n, base, prec, width, f);
      var k := Displaced(m, base, prec, width, f);
      && n <= m <= NTOA_SIZE && k <= m - n
      && (base == 16 ==> z == m - n - k)
      && (base == 8 ==> z == m - n - k + 1 || (m == NTOA_SIZE && k == 0 && z == m - n))
  {
  }

  lemma TakenZeros(digits: text, z: nat, k: nat)
    requires k <= z
    ensures (Repeat('0', z) + digits)[k..] == Repeat('0', z - k) + digits
  {
  }

  lemma OneMoreZero(digits: text, z: nat)
    ensures "0" + (Repeat('0', z) + digits) == Repeat('0', z + 1) + digits
  {
  }

  lemma HashNotBlank(digits: text, base: nat, prec: nat, width: nat, f: Flags)
    requires NotBlank(digits)
    ensures NotBlank(HashBody(digits, base, prec, width, f)) && NotBlank(IsoHashBody(digits, base, prec, width, f))
  {
    hide CodeLength, Displaced, IsoHashZeros, NotBlank;
    var low := Last(digits, NTOA_SIZE);
    var n := CodeLength(|low|, false, prec, width, f);
    var padded := Repeat('0', n - |low|) + low;
    var k := Min(|padded|, Displaced(n, base, prec, width, f));
    var z := Repeat('0', IsoHashZeros(|digits|, base, prec, width, f));
    Constants(base, f, n - |low|);
    Constants(base, f, IsoHashZeros(|digits|, base, prec, width, f));
    EndNotBlank(digits, |digits| - |low|);
    BothNotBlank(Repeat('0', n - |low|), low);
    EndNotBlank(padded, k);
    var whole := Prefix(base, f) + padded[k..];
    BothNotBlank(Prefix(base, f), padded[k..]);
    EndNotBlank(whole, |whole| - |Last(whole, NTOA_SIZE)|);
    var front := if base == 16 then Prefix(base, f) else "";
    BothNotBlank(front, z);
    BothNotBlank(front + z, digits);
  }

  lemma Constants(base: nat, f: Flags, z: int)
    ensures NotBlank(Prefix(base, f)) && NotBlank(Repeat('0', z)) && NotBlank("")
  {
  }

  lemma BothNotBlank(a: text, b: text)
    requires NotBlank(a) && NotBlank(b)
    ensures NotBlank(a + b)
  {
  }

  lemma EndNotBlank(s: text, k: nat)
    requires NotBlank(s) && k <= |s|
    ensures NotBlank(s[k..])
  {
  }

  ghost predicate NotBlank(s: text) {
    forall k :: 0 <= k < |s| ==> s[k] != ' '
  }

  lemma SameField(body: text, width: nat, f: Flags)
    requires f.zero && !f.left ==> |body| >= width
    ensures CodeJustified(body, width, f) == Justified(body, width, f)
  {
  }

  /** Bodies of different lengths without blanks make different fields. */
  lemma Differ(code: text, iso: text, width: nat, f: Flags)
    requires |code| != |iso| && (f.zero && !f.left ==> |iso| >= width)
    requires NotBlank(code) && NotBlank(iso)
    ensures CodeJustified(code, width, f) != Justified(iso, width, f)
  {
    var a, b := CodeJustified(code, width, f), Justified(iso, width, f);
    if |a| == |b| {
      var k := if f.left then Min(|code|, |iso|) else |b| - 1 - Min(|code|, |iso|);
      assert a[k] != b[k];
    }
  }

  // ----- zero, and whole conversions -----

  /** Zero has no prefix, and in octal at least one digit. */
  function IsoHashed(v: nat, base: nat, prec: nat, width: nat, f: Flags): text
    requires base == 8 || base == 16
  {
    if v > 0 then Justified(IsoHashBody(Digits(v, base, f.upper), base, prec, width, f), width, f)
    else if base == 8 && f.precise && prec == 0 then Justified("0", width, f)
    else IsoField(0, false, base, prec, width, f.(hash := false))
  }

  predicate PrintsHashed(v: nat, base: nat, prec: nat, width: nat, f: Flags)
    requires base == 8 || base == 16
  {
    if v > 0 then
      var digits := Digits(v, base, f.upper);
      |IsoHashBody(digits, base, prec, width, f)| <= NTOA_SIZE && !HashFails(|digits|, base, prec, width, f)
    else
      var g := f.(hash := false);
      !(base == 8 && f.precise && prec == 0) && !DropsZeros(0, base, prec, g) && Fits(0, false, base, prec, width, g)
  }

  /** For every number: the alternative form is as ISO C asks if and only if that condition holds. */
  lemma HashedFieldIsIso(v: nat, base: nat, prec: nat, width: nat, f: Flags)
    requires (base == 8 || base == 16) && HashFlags(prec, f)
    ensures IntegerField(v, false, base, prec, width, f) == IsoHashed(v, base, prec, width, f) <==> PrintsHashed(v, base, prec, width, f)
  {
    hide Digits, IntegerField, IsoHashBody, HashFails, IsoField, DropsZeros, Fits, Justified;
    if v > 0 {
      HashIsIso(v, base, prec, width, f);
    } else {
      var g := f.(hash := false);
      ZeroIsPlain(base, prec, width, f);
      FieldIsIso(0, false, base, prec, width, g);
      if base == 8 && f.precise && prec == 0 { LostZero(width, f); }
    }
  }

  lemma ZeroIsPlain(base: nat, prec: nat, width: nat, f: Flags)
    requires 2 <= base <= 16
    ensures IntegerField(0, false, base, prec, width, f) == IntegerField(0, false, base, prec, width, f.(hash := false))
  {
    hide DigitsUp, Padded, Reverse;
  }

  /** `%#.0o` of 0 is printed without the one zero that ISO C asks for. */
  lemma LostZero(width: nat, f: Flags)
    requires HashFlags(0, f) && f.precise
    ensures IntegerField(0, false, 8, 0, width, f) != Justified("0", width, f)
  {
    var g := f.(hash := false);
    ZeroIsPlain(8, 0, width, f);
    FieldIsCode(0, false, 8, 0, width, g);
    assert CodeBody(0, false, 8, 0, width, g) == [];
    Differ([], "0", width, g);
    assert CodeJustified([], width, g) == CodeJustified([], width, f);
  }

  /** Conversions in the alternative form. */
  predicate IsHashed(c: char, d: Directive) {
    d.Directive? && (c == 'x' || c == 'X' || c == 'o') && d.f.hash && (!d.f.precise ==> d.prec == 0)
  }

  function IsoHashConversion(c: char, d: Directive, v: int): text
    requires IsHashed(c, d) && Value(c, d.bits, v) >= 0
  {
    IsoHashed(Value(c, d.bits, v), Base(c), d.prec, d.width, IntegerFlags(c, d.f))
  }

  predicate PrintsHashConversion(c: char, d: Directive, v: int)
    requires IsHashed(c, d) && Value(c, d.bits, v) >= 0
  {
    PrintsHashed(Value(c, d.bits, v), Base(c), d.prec, d.width, IntegerFlags(c, d.f))
  }

  lemma HashConversionIsIso(c: char, d: Directive, v: int)
    requires IsHashed(c, d)
    ensures Value(c, d.bits, v) >= 0 && (Integer(c, d, v) == IsoHashConversion(c, d, v) <==> PrintsHashConversion(c, d, v))
  {
    hide IntegerField, IsoHashed, PrintsHashed, Modulus;
    HashedFieldIsIso(Value(c, d.bits, v), Base(c), d.prec, d.width, IntegerFlags(c, d.f));
  }

  // ----- digits lost -----

  /** `%#4x` of 0x1234 is printed as 0x34. */
  lemma LostDigits()
    ensures HashFails(4, 16, 0, 4, NO_FLAGS.(hash := true))
    ensures IntegerField(0x1234, false, 16, 0, 4, NO_FLAGS.(hash := true)) == "0x34"
  {
    var f := NO_FLAGS.(hash := true);
    FourDigits();
    HashField(0x1234, 16, 0, 4, f);
    assert Repeat('0', 0) + "1234" == "1234";
    assert "1234"[2..] == "34" && Prefix(16, f) + "34" == "0x34";
  }

  lemma FourDigits()
    ensures Digits(0x1234, 16, false) == "1234"
  {
    assert Digits(0x1, 16, false) == "1";
    assert Digits(0x12, 16, false) == "1" + "2" == "12";
    assert Digits(0x123, 16, false) == "12" + "3" == "123";
    assert Digits(0x1234, 16, false) == "123" + "4" == "1234";
  }
}
