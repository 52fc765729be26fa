/** What directives print, in numerals: the base, the range and the flags of every conversion written out
    from section 7.21.6.1 of ISO C11, without the functions that the printer is specified by. */
module PrintfNumerals {
  import opened PrintfSpec
  import opened PrintfIso
  import PrintfHash
  import opened PrintfDirective
  import Bits

  /** How many values the type of an argument has. */
  function Wide(length: text): (m: nat)
    ensures m > 0 && m % 2 == 0
  {
    if length == "hh" then 0x100
    else if length == "h" then 0x1_0000
    else if length == "" then 0x1_0000_0000
    else 0x1_0000_0000_0000_0000
  }

  function Width(s: Spelled): nat
    requires WellSpelled(s)
  {
    NumberNonNegative(s.width);
    Number(s.width, 10) % 0x1_0000_0000
  }

  function Precision(s: Spelled): nat
    requires WellSpelled(s)
  {
    NumberNonNegative(s.prec);
    Number(s.prec, 10) % 0x1_0000_0000
  }

  function Format(s: Spelled, c: char): text {
    "%" + Spelling(s) + [c]
  }

  /** The unsigned conversions and their bases. */
  predicate Unsigned(c: char, base: nat) {
    (c == 'x' && base == 16) || (c == 'X' && base == 16) || (c == 'o' && base == 8) || (c == 'u' && base == 10) || (c == 'b' && base == 2)
  }

  function UnsignedFlags(s: Spelled, c: char): Flags {
    Flags('0' in s.flags && !s.precise, '-' in s.flags, false, false, false, c == 'X', s.precise)
  }

  function SignedFlags(s: Spelled): Flags {
    Flags('0' in s.flags && !s.precise, '-' in s.flags, '+' in s.flags, ' ' in s.flags, false, false, s.precise)
  }

  /** An unsigned conversion of `v` prints the ISO field of `v` modulo the size of its type, in its base,
      exactly unless zeros are dropped or the field is too long. */
  lemma UnsignedPrints(s: Spelled, c: char, base: nat, v: int)
    requires WellSpelled(s) && Unsigned(c, base) && ('#' in s.flags ==> c == 'u')
    ensures var n, f := v % Wide(s.length), UnsignedFlags(s, c);
      Render(Format(s, c), 0, [Num(v)]) == Output(IsoField(n, false, base, Precision(s), Width(s), f))
      <==> !DropsZeros(n, base, Precision(s), f) && Fits(n, false, base, Precision(s), Width(s), f)
  {
    hide Render, IsoField, DropsZeros, Fits, Number, Spelling, IntegerField, WellSpelled, IsoBody;
    SpelledPrints(s, c, v);
  }

  /** The two's complement value of `v` in a type of that size. */
  predicate Represents(n: int, length: text, v: int) {
    -(Wide(length) / 2) <= n < Wide(length) / 2 && (v - n) % Wide(length) == 0
  }

  /** A signed conversion prints the ISO field of that value in base ten, under the same condition. */
  lemma SignedPrints(s: Spelled, c: char, n: int, v: int)
    requires WellSpelled(s) && (c == 'd' || c == 'i') && Represents(n, s.length, v)
    ensures var a, f := if n < 0 then -n else n, SignedFlags(s);
      Render(Format(s, c), 0, [Num(v)]) == Output(IsoField(a, n < 0, 10, Precision(s), Width(s), f))
      <==> !DropsZeros(a, 10, Precision(s), f) && Fits(a, n < 0, 10, Precision(s), Width(s), f)
  {
    hide Render, IsoField, DropsZeros, Fits, Number, Spelling, IntegerField, WellSpelled, IsoBody, Value, Wide;
    SpelledPrints(s, c, v);
    LengthOf(s);
    SignedValue(s.length, c, n, v);
  }

  lemma LengthOf(s: Spelled)
    requires WellSpelled(s)
    ensures IsLength(s.length)
  {
  }

  lemma SignedValue(length: text, c: char, n: int, v: int)
    requires IsLength(length) && (c == 'd' || c == 'i') && Represents(n, length, v)
    ensures Value(c, LengthBits(length), v) == n
  {
    hide Wide;
    var m := Wide(length);
    LengthIsWide(length);
    Residue(v, n, m);
  }

  lemma LengthIsWide(length: text)
    requires IsLength(length)
    ensures Modulus(LengthBits(length)) == Wide(length)
  {
  }

  lemma Residue(v: int, n: int, m: nat)
    requires m > 0 && m % 2 == 0 && -(m / 2) <= n < m / 2 && (v - n) % m == 0
    ensures (v + m / 2) % m - m / 2 == n
  {
    var q, r := (v - n) / m, n + m / 2;
    assert v + m / 2 == m * q + r && 0 <= r < m;
    Remainder(v + m / 2, m, q, r);
  }

  lemma Remainder(x: int, m: nat, q: int, r: int)
    requires m > 0 && x == m * q + r && 0 <= r < m
    ensures x % m == r
  {
    var p, t := x / m, x % m;
    assert x == m * p + t && 0 <= t < m;
    Between(m, p - q, r - t);
  }

  lemma Between(m: int, a: int, d: int)
    requires m > 0 && m * a == d && -m < d < m
    ensures d == 0
  {
    if a > 0 {
      AtLeast(m, a);
    } else if a < 0 {
      AtLeast(m, -a);
      Opposite(m, a);
    }
  }

  lemma AtLeast(m: int, a: int)
    requires m > 0 && a > 0
    ensures m * a >= m
  {
    Bits.MulMono(m, 1, a);
  }

  lemma Opposite(m: int, a: int)
    ensures m * -a == -(m * a)
  {
  }

  /** The alternative form of hexadecimal and octal conversions. */
  lemma HashedPrints(s: Spelled, c: char, base: nat, v: int)
    requires WellSpelled(s) && Unsigned(c, base) && base != 10 && base != 2 && '#' in s.flags
    ensures var n, f := v % Wide(s.length), UnsignedFlags(s, c).(hash := true);
      Render(Format(s, c), 0, [Num(v)]) == Output(PrintfHash.IsoHashed(n, base, Precision(s), Width(s), f))
      <==> PrintfHash.PrintsHashed(n, base, Precision(s), Width(s), f)
  {
    hide Render, PrintfHash.IsoHashed, PrintfHash.PrintsHashed, Number, Spelling, IntegerField, WellSpelled;
    SpelledPrints(s, c, v);
  }

  // ----- the digits denote the argument -----

  /** Whatever the flags, width and precision, an unsigned conversion without `#` prints blanks and digits
      that denote the argument modulo the size of its type, in the base of the conversion. */
  lemma UnsignedDenotes(s: Spelled, c: char, base: nat, v: int) returns (left: nat, digits: text, right: nat)
    requires WellSpelled(s) && Unsigned(c, base) && base != 2 && ('#' in s.flags ==> c == 'u')
    ensures Render(Format(s, c), 0, [Num(v)]) == Output(Repeat(' ', left) + digits + Repeat(' ', right))
    ensures Number(digits, base) == v % Wide(s.length)
  {
    hide Render, Number, Spelling, WellSpelled, Integer, CodeJustified, Wide;
    var d := UnsignedReads(s, c, base, v);
    var f := UnsignedFlags(s, c);
    digits := UnsignedBody(c, d, base, v, f);
    left, right := Blanks(digits, d.width, f);
  }

  lemma UnsignedReads(s: Spelled, c: char, base: nat, v: int) returns (d: Directive)
    requires WellSpelled(s) && Unsigned(c, base) && base != 2 && ('#' in s.flags ==> c == 'u')
    ensures Plain(c, d) && v % Wide(s.length) == Value(c, d.bits, v) && UnsignedFlags(s, c) == IntegerFlags(c, d.f)
    ensures Render(Format(s, c), 0, [Num(v)]) == Output(Integer(c, d, v))
  {
    hide Render, Number, Spelling, WellSpelled, Integer, Wide, Modulus;
    SpelledPrints(s, c, v);
    d := Meaning(s, 1 + |Spelling(s)|, [Num(v)]);
    LengthOf(s);
    LengthIsWide(s.length);
  }

  lemma UnsignedBody(c: char, d: Directive, base: nat, v: int, f: Flags) returns (body: text)
    requires Plain(c, d) && Unsigned(c, base) && base != 2 && f == IntegerFlags(c, d.f)
    ensures Integer(c, d, v) == CodeJustified(body, d.width, f) && Number(body, base) == Value(c, d.bits, v)
  {
    hide Number, CodeBody, CodeLength, CodeDigits, Integer, CodeJustified, Modulus;
    ConversionReadsBack(c, d, v);
    body := CodeBody(Value(c, d.bits, v), false, base, d.prec, d.width, f);
    assert body[0..] == body;
  }

  lemma Blanks(body: text, width: nat, f: Flags) returns (left: nat, right: nat)
    ensures CodeJustified(body, width, f) == Repeat(' ', left) + body + Repeat(' ', right)
  {
    var n := if width > |body| then width - |body| else 0;
    assert Repeat(' ', width - |body|) == Repeat(' ', n);
    assert Repeat(' ', 0) + body == body && body + Repeat(' ', 0) == body;
    assert Repeat(' ', n) + body + Repeat(' ', 0) == Repeat(' ', n) + body;
    left := if f.left || f.zero then 0 else n;
    right := if f.left then n else 0;
  }

  function SignOf(n: int, flags: text): text {
    if n < 0 then "-" else if '+' in flags then "+" else if ' ' in flags then " " else ""
  }

  /** A signed conversion prints a sign before them, unless digits fill the conversion buffer. */
  lemma SignedDenotes(s: Spelled, c: char, n: int, v: int) returns (left: nat, sign: text, digits: text, right: nat)
    requires WellSpelled(s) && (c == 'd' || c == 'i') && Represents(n, s.length, v)
    ensures Render(Format(s, c), 0, [Num(v)]) == Output(Repeat(' ', left) + sign + digits + Repeat(' ', right))
    ensures Number(digits, 10) == if n < 0 then -n else n
    ensures sign == if |digits| >= 32 then "" else SignOf(n, s.flags)
  {
    hide Render, Number, Spelling, WellSpelled, Integer, CodeJustified, Represents;
    var d := SignedReads(s, c, n, v);
    var f := SignedFlags(s);
    var body;
    body, sign, digits := SignedBody(c, d, n, v, f);
    left, right := Blanks(body, d.width, f);
    assert Repeat(' ', left) + body == Repeat(' ', left) + sign + digits;
  }

  /** What the directive is read as. */
  lemma SignedReads(s: Spelled, c: char, n: int, v: int) returns (d: Directive)
    requires WellSpelled(s) && (c == 'd' || c == 'i') && Represents(n, s.length, v)
    ensures Plain(c, d) && n == Value(c, d.bits, v) && SignedFlags(s) == IntegerFlags(c, d.f)
    ensures Render(Format(s, c), 0, [Num(v)]) == Output(Integer(c, d, v))
  {
    hide Render, Number, Spelling, WellSpelled, Value, Integer, Represents;
    SpelledPrints(s, c, v);
    d := Meaning(s, 1 + |Spelling(s)|, [Num(v)]);
    LengthOf(s);
    SignedValue(s.length, c, n, v);
  }

  lemma SignedBody(c: char, d: Directive, n: int, v: int, f: Flags) returns (body: text, sign: text, digits: text)
    requires Plain(c, d) && (c == 'd' || c == 'i') && n == Value(c, d.bits, v) && f == IntegerFlags(c, d.f)
    ensures Integer(c, d, v) == CodeJustified(body, d.width, f) && body == sign + digits
    ensures Number(digits, 10) == Magnitude(n) && sign == if |digits| >= 32 then [] else Sign(n < 0, f)
  {
    hide Number, CodeBody, CodeLength, CodeDigits, Value, Integer, CodeJustified, Sign, IntegerFlags, Magnitude;
    ConversionReadsBack(c, d, v);
    body := CodeBody(Magnitude(n), n < 0, 10, d.prec, d.width, f);
    var k := CodeLength(|CodeDigits(Magnitude(n), 10, f)|, n < 0, d.prec, d.width, f);
    sign := if k < NTOA_SIZE then Sign(n < 0, f) else [];
    digits := body[|sign|..];
  }

  const PLAIN: Spelled := Spelled([], [], false, [], [])

  /** `%x`, `%o`, `%u` and `%d` of any `v`. */
  lemma PlainConversions(v: int, n: int)
    requires -0x8000_0000 <= n < 0x8000_0000 && (v - n) % 0x1_0000_0000 == 0
    ensures Render("%x", 0, [Num(v)]) == Output(Digits(v % 0x1_0000_0000, 16, false))
    ensures Render("%X", 0, [Num(v)]) == Output(Digits(v % 0x1_0000_0000, 16, true))
    ensures Render("%o", 0, [Num(v)]) == Output(Digits(v % 0x1_0000_0000, 8, false))
    ensures Render("%u", 0, [Num(v)]) == Output(Digits(v % 0x1_0000_0000, 10, false))
    ensures Render("%d", 0, [Num(v)]) == Output(if n < 0 then "-" + Digits(-n, 10, false) else Digits(n, 10, false))
  {
    hide Render, Digits;
    PlainUnsigned('x', 16, v);
    PlainUnsigned('X', 16, v);
    PlainUnsigned('o', 8, v);
    PlainUnsigned('u', 10, v);
    assert "%x" == "%" + ['x'] && "%X" == "%" + ['X'] && "%o" == "%" + ['o'] && "%u" == "%" + ['u'];
    PlainSigned(n, v);
  }

  lemma PlainUnsigned(c: char, base: nat, v: int)
    requires Unsigned(c, base) && base != 2
    ensures Render("%" + [c], 0, [Num(v)]) == Output(Digits(v % 0x1_0000_0000, base, c == 'X'))
  {
    hide Render, Digits, Fits, DropsZeros, IsoField;
    UnsignedPrints(PLAIN, c, base, v);
    assert Spelling(PLAIN) == [] && Format(PLAIN, c) == "%" + [c];
    PlainField(v % 0x1_0000_0000, false, base, UnsignedFlags(PLAIN, c));
  }

  lemma PlainSigned(n: int, v: int)
    requires -0x8000_0000 <= n < 0x8000_0000 && (v - n) % 0x1_0000_0000 == 0
    ensures Render("%d", 0, [Num(v)]) == Output(if n < 0 then "-" + Digits(-n, 10, false) else Digits(n, 10, false))
  {
    hide Render, Digits, Fits, DropsZeros, IsoField;
    SignedPrints(PLAIN, 'd', n, v);
    assert Spelling(PLAIN) == [] && Format(PLAIN, 'd') == "%d";
    PlainField(if n < 0 then -n else n, n < 0, 10, SignedFlags(PLAIN));
  }

  lemma PlainField(n: nat, negative: bool, base: nat, f: Flags)
    requires (base == 8 || base == 10 || base == 16) && n < 0x1_0000_0000 && f == NO_FLAGS.(upper := f.upper)
    ensures !DropsZeros(n, base, 0, f) && Fits(n, negative, base, 0, 0, f)
    ensures IsoField(n, negative, base, 0, 0, f) == (if negative then "-" else "") + Digits(n, base, f.upper)
  {
    hide Digits, Pow8;
    SixtyFourBits();
    FewDigits(n, base, f.upper, 22);
    var digits := Digits(n, base, f.upper);
    assert [] + digits == digits && [] + [] + digits == digits && "-" + [] + digits == "-" + digits;
  }

  /** The digits themselves. */
  lemma DigitChars(d: nat)
    requires d < 16
    ensures DigitChar(d, false) == "0123456789abcdef"[d] && DigitChar(d, true) == "0123456789ABCDEF"[d]
  {
  }

  // ----- the other conversions -----

  /** A text in a field of blanks. */
  function Blanked(t: text, s: Spelled): text
    requires WellSpelled(s)
  {
    if '-' in s.flags then t + Repeat(' ', Width(s) - |t|) else Repeat(' ', Width(s) - |t|) + t
  }

  lemma OnePiece(s: Spelled, c: char, arg: Arg, t: text)
    requires WellSpelled(s) && IsConversion(c)
    requires Convert(c, Meaning(s, 1 + |Spelling(s)|, [arg])) == Piece(t, [])
    ensures Render(Format(s, c), 0, [arg]) == Output(t)
  {
    hide DirectiveFrom, Spelling, Convert, Render;
    SpelledIsRead("%", s, c, [], [arg]);
    assert "%" + Spelling(s) + [c] + [] == Format(s, c);
    RenderStep(Format(s, c), 0, [arg]);
    RenderEnd(Format(s, c), []);
    assert t + [] == t;
  }

  lemma StringPrints(s: Spelled, t: text)
    requires WellSpelled(s)
    ensures Render(Format(s, 's'), 0, [Str(t)])
      == Output(Blanked(if s.precise && Precision(s) < |t| then t[..Precision(s)] else t, s))
  {
    hide Render, Spelling, Number, Repeat, WellSpelled;
    OnePiece(s, 's', Str(t), Blanked(if s.precise && Precision(s) < |t| then t[..Precision(s)] else t, s));
  }

  lemma CharPrints(s: Spelled, v: int)
    requires WellSpelled(s)
    ensures Render(Format(s, 'c'), 0, [Num(v)]) == Output(Blanked([(v % 256) as char], s))
  {
    hide Render, Spelling, Number, Repeat, WellSpelled;
    OnePiece(s, 'c', Num(v), Blanked([(v % 256) as char], s));
  }

  lemma PercentPrints(rest: text, args: seq<Arg>)
    ensures Render("%%" + rest, 0, args) == Prepend("%", Render("%%" + rest, 2, args))
  {
    hide Render;
    var format := "%%" + rest;
    assert Spelling(PLAIN) == [] && "%" + [] + ['%'] + rest == format;
    SpelledIsRead("%", PLAIN, '%', rest, args);
    RenderStep(format, 0, args);
  }

  lemma RenderEnd(format: text, args: seq<Arg>)
    ensures Render(format, |format|, args) == Output([])
  {
  }

  lemma RenderStep(format: text, i: nat, args: seq<Arg>)
    requires i < |format| && format[i] == '%' && DirectiveFrom(format, i + 1, args).Directive?
    requires var d := DirectiveFrom(format, i + 1, args); Convert(At(format, d.next), d).Piece?
    ensures var d := DirectiveFrom(format, i + 1, args); var p := Convert(At(format, d.next), d);
      Render(format, i, args) == Prepend(p.chars, Render(format, d.next + 1, p.args))
  {
    hide DirectiveFrom, Convert;
  }

  /** `%p` prints all sixteen hexadecimal digits of the address, in upper case. */
  lemma PointerPrints(v: int)
    ensures Render("%p", 0, [Num(v)])
      == Output(Repeat('0', 16 - |Digits(v % 0x1_0000_0000_0000_0000, 16, true)|) + Digits(v % 0x1_0000_0000_0000_0000, 16, true))
  {
    hide Render, Digits, IntegerField, Pow8;
    var n := v % 0x1_0000_0000_0000_0000;
    var f := NO_FLAGS.(zero := true, upper := true);
    SixtyFourBits();
    FewDigits(n, 16, true, 22);
    FieldIsIso(n, false, 16, 0, 16, f);
    var digits := Digits(n, 16, true);
    assert IsoBody(n, false, 16, 0, 16, f) == Repeat('0', 16 - |digits|) + digits;
    assert [] + IsoBody(n, false, 16, 0, 16, f) == IsoBody(n, false, 16, 0, 16, f);
    assert Spelling(PLAIN) == [] && Format(PLAIN, 'p') == "%p";
    OnePiece(PLAIN, 'p', Num(v), IntegerField(n, false, 16, 0, 16, f));
  }

  // ----- widths as arguments -----

  /** `*` stands for a width, and a negative one for the `-` flag and a width. */
  lemma StarWidth(format: text, i: nat, f: Flags, w: int, args: seq<Arg>)
    requires At(format, i) == '*' && -0x8000_0000 <= w < 0x8000_0000
    ensures WidthFrom(format, i, f, [Num(w)] + args)
      == Directive(if w < 0 then f.(left := true) else f, if w < 0 then -w else w, 0, 32, i + 1, args)
  {
    assert ([Num(w)] + args)[1..] == args;
  }

  // ----- whole formats -----

  /** A part of a format: plain text, or a directive and its argument. */
  datatype Part = Plainly(t: text) | Converted(s: Spelled, c: char, arg: Arg)

  predicate GoodPart(p: Part) {
    match p
    case Plainly(t) => forall k :: 0 <= k < |t| ==> t[k] != '%'
    case Converted(s, c, arg) =>
      WellSpelled(s) && IsConversion(c) && c != '%' && (if c == 's' then arg.Str? else arg.Num?)
  }

  function PartText(p: Part): text {
    match p
    case Plainly(t) => t
    case Converted(s, c, _) => Format(s, c)
  }

  function PartArgs(p: Part): seq<Arg> {
    match p
    case Plainly(_) => []
    case Converted(_, _, arg) => [arg]
  }

  function Texts(parts: seq<Part>): text {
    if parts == [] then [] else PartText(parts[0]) + Texts(parts[1..])
  }

  function Args(parts: seq<Part>): seq<Arg> {
    if parts == [] then [] else PartArgs(parts[0]) + Args(parts[1..])
  }

  /** What the parts print, each as a format of its own. */
  function Separately(parts: seq<Part>): Output {
    if parts == [] then Output([])
    else
      var first := Render(PartText(parts[0]), 0, PartArgs(parts[0]));
      if first.Undefined? then Undefined else Prepend(first.chars, Separately(parts[1..]))
  }

  /** A format prints what its parts print, one after another. */
  lemma {:induction false} FormatPrints(before: text, parts: seq<Part>)
    requires forall k :: 0 <= k < |parts| ==> GoodPart(parts[k])
    ensures Render(before + Texts(parts), |before|, Args(parts)) == Separately(parts) && Separately(parts).Output?
    decreases |parts|
  {
    hide Render, GoodPart, PartText, PartArgs;
    if parts == [] {
      assert before + [] == before;
      RenderEnd(before, []);
    } else {
      var p, rest := parts[0], parts[1..];
      var a, args := PartText(p), Args(rest);
      FormatPrints(before + a, rest);
      assert before + a + Texts(rest) == before + (a + Texts(rest)) == before + Texts(parts);
      var t := PartPrints(before, p, Texts(rest), args);
      var u := PartPrints([], p, [], []);
      assert [] + a + [] == a && PartArgs(p) + [] == PartArgs(p);
      RenderEnd(a, []);
      assert u + [] == u;
    }
  }

  /** One part, wherever it stands, prints the same. */
  lemma PartPrints(before: text, p: Part, after: text, args: seq<Arg>) returns (t: text)
    requires GoodPart(p)
    ensures t == Own(p)
    ensures Render(before + PartText(p) + after, |before|, PartArgs(p) + args)
      == Prepend(t, Render(before + PartText(p) + after, |before + PartText(p)|, args))
  {
    hide Render, Convert, Own, GoodPart, Format, DirectiveFrom;
    t := Own(p);
    match p
    case Plainly(u) => PlainPrints(before, u, after, args);
    case Converted(s, c, arg) => ConvertedPrints(before, s, c, arg, after, args);
  }

  lemma PlainPrints(before: text, t: text, after: text, args: seq<Arg>)
    requires GoodPart(Plainly(t))
    ensures Render(before + t + after, |before|, [] + args) == Prepend(Own(Plainly(t)), Render(before + t + after, |before + t|, args))
  {
    hide Render;
    assert [] + args == args;
    TextPrints(before + t + after, |before|, |before| + |t|, args);
    assert (before + t + after)[|before|..|before| + |t|] == t;
  }

  lemma ConvertedPrints(before: text, s: Spelled, c: char, arg: Arg, after: text, args: seq<Arg>)
    requires GoodPart(Converted(s, c, arg))
    ensures var format := before + Format(s, c) + after;
      Render(format, |before|, [arg] + args) == Prepend(Own(Converted(s, c, arg)), Render(format, |before + Format(s, c)|, args))
  {
    hide Render, Convert, DirectiveFrom, WellSpelled, Number, Spelling;
    var format := before + Format(s, c) + after;
    assert before + "%" + Spelling(s) + [c] + after == format;
    SpelledIsRead(before + "%", s, c, after, [arg] + args);
    ConvertsAlone(s, c, arg, args, |before| + 1 + |Spelling(s)|);
    RenderStep(format, |before|, [arg] + args);
  }

  /** What a part prints by itself. */
  function Own(p: Part): text
    requires GoodPart(p)
  {
    match p
    case Plainly(t) => t
    case Converted(s, c, arg) => Convert(c, Meaning(s, 0, [arg])).chars
  }

  lemma ConvertsAlone(s: Spelled, c: char, arg: Arg, args: seq<Arg>, next: nat)
    requires GoodPart(Converted(s, c, arg))
    ensures Convert(c, Meaning(s, next, [arg] + args)) == Piece(Convert(c, Meaning(s, 0, [arg])).chars, args)
  {
    hide IntegerField, Number, Repeat, WellSpelled;
    assert ([arg] + args)[1..] == args;
  }

  lemma {:induction false} TextPrints(format: text, i: nat, j: nat, args: seq<Arg>)
    requires i <= j <= |format| && forall k :: i <= k < j ==> format[k] != '%'
    ensures Render(format, i, args) == Prepend(format[i..j], Render(format, j, args))
    decreases j - i
  {
    hide Convert, DirectiveFrom;
    if i < j {
      TextPrints(format, i + 1, j, args);
      assert format[i..j] == [format[i]] + format[i + 1..j];
      assert Render(format, i, args) == Prepend([format[i]], Render(format, i + 1, args));
      Prepended(format[i], format[i + 1..j], Render(format, j, args));
    } else {
      assert format[i..j] == [];
      PrependNothing(Render(format, j, args));
    }
  }

  lemma Prepended(c: char, t: text, o: Output)
    ensures Prepend([c], Prepend(t, o)) == Prepend([c] + t, o)
  {
    if o.Output? { assert [c] + (t + o.chars) == [c] + t + o.chars; }
  }

  lemma PrependNothing(o: Output)
    ensures Prepend([], o) == o
  {
    if o.Output? { assert [] + o.chars == o.chars; }
  }
}
