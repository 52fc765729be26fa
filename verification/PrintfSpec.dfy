/** What a format string and its arguments print: the meaning of `_vsnprintf`, with no buffer in
    sight.  Whatever ISO C leaves undefined (a directive cut off by the end of the format, a
    missing argument or one of the wrong kind) and floating point have no meaning here. */
module PrintfSpec {
  import Widths

  const NTOA_SIZE: nat := 32

  type text = seq<char>

  datatype Flags = Flags(zero: bool, left: bool, plus: bool, space: bool, hash: bool, upper: bool, precise: bool)

  const NO_FLAGS: Flags := Flags(false, false, false, false, false, false, false)

  /** An argument: a number, or a string without NUL. */
  datatype Arg = Num(v: int) | Str(s: text)

  function At(format: text, i: nat): char {
    if i < |format| then format[i] else '\0'
  }

  predicate IsDigit(c: char) {
    '0' <= c <= '9'
  }

  function DigitValue(c: char): int {
    if '0' <= c <= '9' then c as int - '0' as int
    else if 'A' <= c <= 'Z' then c as int - 'A' as int + 10
    else c as int - 'a' as int + 10
  }

  /** The number that digits denote. */
  function Number(s: text, base: nat): int {
    if s == [] then 0 else Number(s[..|s| - 1], base) * base + DigitValue(s[|s| - 1])
  }

  lemma NumberAppend(s: text, c: char, base: nat)
    ensures Number(s + [c], base) == Number(s, base) * base + DigitValue(c)
  {
    assert (s + [c])[..|s|] == s;
  }

  // ----- the parts of a directive -----

  function Flag(f: Flags, c: char): (r: Flags) {
    if c == '0' then f.(zero := true)
    else if c == '-' then f.(left := true)
    else if c == '+' then f.(plus := true)
    else if c == ' ' then f.(space := true)
    else f.(hash := true)
  }

  predicate IsFlag(c: char) {
    c == '0' || c == '-' || c == '+' || c == ' ' || c == '#'
  }

  function FlagsFrom(format: text, i: nat, f: Flags): (Flags, nat)
    decreases |format| - i
  {
    if i < |format| && IsFlag(format[i]) then FlagsFrom(format, i + 1, Flag(f, format[i])) else (f, i)
  }

  /** A decimal number, in 32-bit unsigned arithmetic. */
  function NumberFrom(format: text, i: nat, n: nat): (nat, nat)
    decreases |format| - i
  {
    if i < |format| && IsDigit(format[i])
    then NumberFrom(format, i + 1, (n * 10 + (format[i] as int - '0' as int)) % Widths.U32_LIMIT)
    else (n, i)
  }

  /** A directive up to its conversion character: what has been read, where that character is, and
      the arguments that are left. */
  datatype Directive = Bad | Directive(f: Flags, width: nat, prec: nat, bits: nat, next: nat, args: seq<Arg>)

  function Int32(v: int): (r: int)
    ensures -0x8000_0000 <= r < 0x8000_0000 && (v - r) % 0x1_0000_0000 == 0
  {
    (v + 0x8000_0000) % Widths.U32_LIMIT - 0x8000_0000
  }

  /** A width, which may be an argument; a negative one means left justification. */
  function WidthFrom(format: text, i: nat, f: Flags, args: seq<Arg>): Directive {
    if IsDigit(At(format, i)) then
      var (w, j) := NumberFrom(format, i, 0);
      Directive(f, w, 0, 32, j, args)
    else if At(format, i) != '*' then Directive(f, 0, 0, 32, i, args)
    else if args == [] || !args[0].Num? then Bad
    else
      var w := Int32(args[0].v);
      if w < 0 then Directive(f.(left := true), -w, 0, 32, i + 1, args[1..]) else Directive(f, w, 0, 32, i + 1, args[1..])
  }

  /** A precision, which may be an argument; a negative one counts as zero. */
  function PrecFrom(format: text, d: Directive): Directive
    requires d.Directive?
  {
    if At(format, d.next) != '.' then d
    else
      var i, f := d.next + 1, d.f.(precise := true);
      if IsDigit(At(format, i)) then
        var (p, j) := NumberFrom(format, i, 0);
        d.(f := f, prec := p, next := j)
      else if At(format, i) != '*' then d.(f := f, next := i)
      else if d.args == [] || !d.args[0].Num? then Bad
      else
        var p := Int32(d.args[0].v);
        d.(f := f, prec := if p > 0 then p else 0, next := i + 1, args := d.args[1..])
  }

  /** A length modifier: the bits of an integer argument. */
  function LengthFrom(format: text, i: nat): (nat, nat) {
    var c := At(format, i);
    if c == 'l' then (64, if At(format, i + 1) == 'l' then i + 2 else i + 1)
    else if c == 'h' then (if At(format, i + 1) == 'h' then (8, i + 2) else (16, i + 1))
    else if c == 't' || c == 'j' || c == 'z' then (64, i + 1)
    else (32, i)
  }

  function DirectiveFrom(format: text, i: nat, args: seq<Arg>): Directive {
    var (f, j) := FlagsFrom(format, i, NO_FLAGS);
    var d := WidthFrom(format, j, f, args);
    if d.Bad? then Bad
    else
      var e := PrecFrom(format, d);
      if e.Bad? then Bad
      else
        var (bits, k) := LengthFrom(format, e.next);
        e.(bits := bits, next := k)
  }

  lemma {:induction false} FlagsForward(format: text, i: nat, f: Flags)
    ensures FlagsFrom(format, i, f).1 >= i
    decreases |format| - i
  {
    if i < |format| && IsFlag(format[i]) { FlagsForward(format, i + 1, Flag(f, format[i])); }
  }

  lemma {:induction false} FlagsKeepPrecise(format: text, i: nat, f: Flags)
    ensures FlagsFrom(format, i, f).0.precise == f.precise
    decreases |format| - i
  {
    if i < |format| && IsFlag(format[i]) { FlagsKeepPrecise(format, i + 1, Flag(f, format[i])); }
  }

  lemma {:induction false} NumberForward(format: text, i: nat, n: nat)
    ensures NumberFrom(format, i, n).1 >= i
    ensures n < Widths.U32_LIMIT ==> NumberFrom(format, i, n).0 < Widths.U32_LIMIT
    decreases |format| - i
  {
    if i < |format| && IsDigit(format[i]) {
      NumberForward(format, i + 1, (n * 10 + (format[i] as int - '0' as int)) % Widths.U32_LIMIT);
    }
  }

  /** A directive lies ahead of the place it is read from. */
  lemma DirectiveForward(format: text, i: nat, args: seq<Arg>)
    ensures var d := DirectiveFrom(format, i, args);
      d.Directive? ==> d.next >= i && d.width < Widths.U32_LIMIT && d.prec < Widths.U32_LIMIT && (!d.f.precise ==> d.prec == 0)
  {
    hide FlagsFrom, NumberFrom;
    FlagsForward(format, i, NO_FLAGS);
    FlagsKeepPrecise(format, i, NO_FLAGS);
    var (f, j) := FlagsFrom(format, i, NO_FLAGS);
    NumberForward(format, j, 0);
    var d := WidthFrom(format, j, f, args);
    if d.Directive? {
      NumberForward(format, d.next + 1, 0);
    }
  }

  // ----- integer fields -----

  function Repeat(c: char, n: int): (s: text)
    ensures |s| == if n > 0 then n else 0
  {
    if n > 0 then seq(n, _ => c) else []
  }

  function DigitChar(d: nat, upper: bool): char
    requires d < 16
  {
    if d < 10 then ('0' as int + d) as char else ((if upper then 'A' else 'a') as int + d - 10) as char
  }

  /** At most `room` digits of a number, the least significant first. */
  function DigitsUp(v: nat, base: nat, upper: bool, room: nat): (s: text)
    requires 2 <= base <= 16 && room > 0
    ensures 0 < |s| <= room
    decreases room
  {
    [DigitChar(v % base, upper)] + (if v / base > 0 && room > 1 then DigitsUp(v / base, base, upper, room - 1) else [])
  }

  function Reverse(s: text): (r: text)
    ensures |r| == |s|
  {
    if s == [] then [] else Reverse(s[1..]) + [s[0]]
  }

  function Min(a: int, b: int): int {
    if a < b then a else b
  }

  /** Zeros up to `n` characters, as far as the conversion buffer has room. */
  function ZerosTo(s: text, n: int): (r: text)
    ensures |s| <= NTOA_SIZE ==> |r| <= NTOA_SIZE
  {
    s + Repeat('0', Min(n, NTOA_SIZE) - |s|)
  }

  function PutIfRoom(s: text, c: char): (r: text)
    ensures |s| <= NTOA_SIZE ==> |r| <= NTOA_SIZE
  {
    if |s| < NTOA_SIZE then s + [c] else s
  }

  /** Zero padding to a width leaves a place for the sign. */
  function ZeroWidth(width: nat, negative: bool, f: Flags): nat {
    if !f.left && width > 0 && f.zero && (negative || f.plus || f.space) then width - 1 else width
  }

  function Padded(s: text, negative: bool, prec: nat, width: nat, f: Flags): (r: text)
    ensures |s| <= NTOA_SIZE ==> |r| <= NTOA_SIZE
  {
    if f.left then s
    else
      var t := ZerosTo(s, prec);
      if f.zero then ZerosTo(t, ZeroWidth(width, negative, f)) else t
  }

  /** The alternative form; padding that fills the field makes way for it. */
  function Hashed(s: text, base: nat, prec: nat, width: nat, f: Flags): (r: text)
    ensures |s| <= NTOA_SIZE ==> |r| <= NTOA_SIZE
  {
    if !f.hash then s
    else
      var t :=
        if !f.precise && s != [] && (|s| == prec || |s| == width)
        then (if |s| > 1 && base == 16 then s[..|s| - 2] else s[..|s| - 1])
        else s;
      var u := if base == 16 then PutIfRoom(t, if f.upper then 'X' else 'x') else if base == 2 then PutIfRoom(t, 'b') else t;
      PutIfRoom(u, '0')
  }

  function Signed(s: text, negative: bool, f: Flags): (r: text)
    ensures |s| <= NTOA_SIZE ==> |r| <= NTOA_SIZE
  {
    if negative then PutIfRoom(s, '-') else if f.plus then PutIfRoom(s, '+') else if f.space then PutIfRoom(s, ' ') else s
  }

  /** The conversion buffer's contents, last character first. */
  function Buffered(v: nat, negative: bool, base: nat, prec: nat, width: nat, f: Flags): (s: text)
    requires 2 <= base <= 16
    ensures |s| <= NTOA_SIZE
  {
    var g := if v == 0 then f.(hash := false) else f;
    var digits := if !f.precise || v != 0 then DigitsUp(v, base, f.upper, NTOA_SIZE) else [];
    var padded := Padded(digits, negative, prec, width, g);
    Signed(Hashed(padded, base, prec, ZeroWidth(width, negative, g), g), negative, g)
  }

  /** A reversed field, turned round and padded with spaces. */
  function Field(s: text, width: nat, f: Flags): text {
    (if !f.left && !f.zero then Repeat(' ', width - |s|) else []) + Reverse(s) + (if f.left then Repeat(' ', width - |s|) else [])
  }

  function IntegerField(v: nat, negative: bool, base: nat, prec: nat, width: nat, f: Flags): text
    requires 2 <= base <= 16
  {
    Field(Buffered(v, negative, base, prec, width, f), ZeroWidth(width, negative, f), f)
  }

  // ----- conversions -----

  datatype Piece = NoPiece | Piece(chars: text, args: seq<Arg>)

  function Base(c: char): (b: nat)
    ensures 2 <= b <= 16
  {
    if c == 'x' || c == 'X' then 16 else if c == 'o' then 8 else if c == 'b' then 2 else 10
  }

  predicate IsInteger(c: char) {
    c == 'd' || c == 'i' || c == 'u' || c == 'x' || c == 'X' || c == 'o' || c == 'b'
  }

  predicate IsFloat(c: char) {
    c == 'f' || c == 'F' || c == 'e' || c == 'E' || c == 'g' || c == 'G'
  }

  function Modulus(bits: nat): (m: nat)
    ensures m > 0
  {
    if bits == 8 then 0x100 else if bits == 16 then 0x1_0000 else if bits == 32 then Widths.U32_LIMIT else 0x1_0000_0000_0000_0000
  }

  /** The argument as a two's complement or unsigned number of its type. */
  function Value(c: char, bits: nat, v: int): int {
    var m := Modulus(bits);
    if c == 'd' || c == 'i' then (v + m / 2) % m - m / 2 else v % m
  }

  /** Signs are for signed numbers, the alternative form for other bases than ten, and a precision
      overrules the zero flag. */
  function IntegerFlags(c: char, f: Flags): Flags {
    var signed := c == 'd' || c == 'i';
    Flags(f.zero && !f.precise, f.left, f.plus && signed, f.space && signed, f.hash && Base(c) != 10, f.upper || c == 'X', f.precise)
  }

  function Magnitude(v: int): nat {
    if v < 0 then -v else v
  }

  function Integer(c: char, d: Directive, v: int): text
    requires d.Directive?
  {
    var n := Value(c, d.bits, v);
    IntegerField(Magnitude(n), n < 0, Base(c), d.prec, d.width, IntegerFlags(c, d.f))
  }

  function Pointer(d: Directive, v: int): text
    requires d.Directive?
  {
    IntegerField(v % Modulus(64), false, 16, d.prec, 16, d.f.(zero := true, upper := true))
  }

  /** A string in a field of spaces. */
  function Spaced(s: text, d: Directive): text
    requires d.Directive?
  {
    if d.f.left then s + Repeat(' ', d.width - |s|) else Repeat(' ', d.width - |s|) + s
  }

  function Shortened(s: text, d: Directive): text
    requires d.Directive?
  {
    if d.f.precise && d.prec < |s| then s[..d.prec] else s
  }

  function Convert(c: char, d: Directive): Piece
    requires d.Directive?
  {
    var args := d.args;
    if c == '\0' || IsFloat(c) then NoPiece
    else if IsInteger(c) then (if args == [] || !args[0].Num? then NoPiece else Piece(Integer(c, d, args[0].v), args[1..]))
    else if c == 'c' then (if args == [] || !args[0].Num? then NoPiece else Piece(Spaced([(args[0].v % 256) as char], d), args[1..]))
    else if c == 's' then (if args == [] || !args[0].Str? then NoPiece else Piece(Spaced(Shortened(args[0].s, d), d), args[1..]))
    else if c == 'p' then (if args == [] || !args[0].Num? then NoPiece else Piece(Pointer(d, args[0].v), args[1..]))
    else Piece([c], args)
  }

  // ----- whole formats -----

  datatype Output = Undefined | Output(chars: text)

  function Prepend(s: text, o: Output): Output {
    if o.Undefined? then Undefined else Output(s + o.chars)
  }

  /** What the format prints from character `i` on. */
  function Render(format: text, i: nat, args: seq<Arg>): Output
    decreases |format| - i
  {
    if i >= |format| then Output([])
    else if format[i] != '%' then Prepend([format[i]], Render(format, i + 1, args))
    else
      var d := DirectiveFrom(format, i + 1, args);
      if d.Bad? then Undefined
      else
        var p := Convert(At(format, d.next), d);
        DirectiveForward(format, i + 1, args);
        if p.NoPiece? then Undefined else Prepend(p.chars, Render(format, d.next + 1, p.args))
  }
}
